# nosh: a Dafny model of the remote-shell protocols

nosh is a remote shell in the manner of Mosh. The server keeps a terminal grid and sends the client
diffs in unreliable datagrams; the client applies them, echoes keystrokes speculatively, and repaints
the local terminal with as few bytes as it can. A reliable stream carries raw output, control messages
and acknowledgements, and survives reattaching; a side channel streams scrollback under credit; an
inner handshake authenticates both ends with SSH keys. This project models those parts and proves
properties of them over all inputs, all runs and all reachable states.

| file | what it models |
|---|---|
| `Wire.dfy`, `Widths.dfy`, `Postcard.dfy`, `StableSort.dfy` | UTF-8, character widths, the postcard wire format, Rust's stable sort |
| `Datagram.dfy`, `Packing.dfy`, `Progress.dfy`, `Nearest.dfy` | state-diff and epoch-ack datagrams; filling one datagram under a byte cap, when that makes progress, and which runs go first |
| `Paint.dfy`, `Screen.dfy`, `DiffScan.dfy` | painting runs, applying diffs, and the server's scan for changed cells |
| `Sync.dfy`, `Leftovers.dfy`, `Ticks.dfy` | one tick from server grid to client grid; leftovers of earlier ticks; many ticks with loss and acknowledgements |
| `Terminal.dfy`, `Render.dfy` | a byte-driven terminal, and the minimal repaint measured against it |
| `Predictor.dfy`, `PredictorLaws.dfy`, `CaretLaws.dfy`, `KeyLaws.dfy`, `EchoOverlay.dfy` | speculative echo: specification, laws, and the object that updates itself |
| `Client.dfy`, `Framebuffer.dfy`, `Display.dfy`, `Prompt.dfy` | the client pump as a step system; the client screen object; what the user sees after each step; where the pump records the prompt after Enter |
| `OutputBuffer.dfy`, `Reattach.dfy` | the sequenced output buffer and cold reattach |
| `Credit.dfy` | credit flow control of the scrollback channel |
| `InnerAuth.dfy`, `KnownHosts.dfy` | the inner-auth handshake and trust on first use |
| `Messages.dfy`, `Codec.dfy` | control messages, frames, and the channel-id prefix |
| `Stdin.dfy` | the paging-key filter and the `~` escape machine |

Objects that the code updates in place are classes whose methods are proved equal to a specification
function of the old state; the properties are lemmas about those functions.

## Where the code departs from what it documents

* The datagram encoder documents `MIN_CAP` = 8 as enough for its bound. It is not: at 8 the final
  assertion fails for every diff. A payload is produced exactly when the bare header leaves room, and
  a cap of 26 always suffices (`Packing.OutcomeIsExact`, `Packing.MinCapIsTooSmall`).
* The per-run overhead of 12 bytes is not the worst case. An ASCII run that does not fit whole shrinks
  exactly if there is room beyond the constant and its true overhead stays below it
  (`Progress.AsciiShrinksIff`); a long coloured run far from the origin is deferred unchanged forever
  (`Progress.FarRunNeverShrinks`). Terminal sizes the client accepts cannot produce one.
* The server diffs against the last acknowledged grid, while the client may have moved on. A cell that
  is changed and changed back before the acknowledgement is in no run, and the client keeps the content
  in between (`Sync.BurstSynchronisesIff`, `Sync.RevertedCellStays`).
* `ClientScreen::apply` accepts several diffs of one epoch, but the pump's gate in front of it is
  strict, so a diff that does not fit one datagram does not complete, whichever of its datagrams comes
  first (`Sync.GatedBurstCompletesIff`).
  The client still acknowledges the epoch, the server takes the whole grid for acknowledged, and the
  missing cells are not sent again until the terminal changes (`Ticks.SplitTickIsNeverRepaired`).
* The client acknowledges only what passes that gate. If an acknowledgement is lost, none follows, and
  the server resends the same epoch in vain until the terminal changes (`Ticks.LostAckIsNeverRepeated`).
* A run left over from an earlier tick can be painted over a newer one, because sorting by cursor
  distance reorders overlapping runs, and it is painted even where the cell has gone back to the
  acknowledged content (`Leftovers.LeftoversIff`, `Leftovers.LeftoverTickIff`,
  `Leftovers.StaleOverlapWins`, `Leftovers.RevertedLeftoverWins`).
* A run with a wide glyph in front of another character is painted at the wrong columns, because
  `apply` gives every character one column (`DiffScan.ScannedReproducesIff`), and the emitter goes on
  as if every character filled one cell (`Render.CellLandsIffNarrow`).
* Resetting the cached physical grid does not make the next render a full repaint: stale glyphs stay
  where a blank is wanted (`Client.RenderAfterResetIff`).
* A read of two to four printable bytes resets the prediction epoch instead of predicting
  (`Predictor.NarrowTextClassification`), a batch differs from single keys past the right margin
  (`PredictorLaws.BatchIsSinglesIff`), and the end key can cross the prompt
  (`PredictorLaws.EndKeyCanCrossPrompt`).
* A new overlay starts with both epochs equal, so the first row typed is displayed before any echo
  (`CaretLaws.FirstKeysAreShown`).
* The prompt column is documented to be recorded by the first datagram after Enter. Before the next
  key a datagram records it exactly if it enters the alternate screen or brings a new size; otherwise
  the datagram accepted after that key records its own cursor column, which is behind the key if it
  holds the echo (`Prompt.PromptRecordedIff`, `Prompt.EnterWaitsForKey`, `Prompt.PromptIsRecordedLate`).
* `read_varint_u32` documents an error on overflow but drops the excess bits
  (`Codec.ChannelIdAgreesIff`).
* A scrollback page can wait for credit with both sides idle, until the 30-second timeout or a close
  ends the channel, if and only if it exceeds 131073 bytes (`Credit.StallsIffPageTooLarge`,
  `Credit.OnlyClosingEndsStall`).
* Output can be delivered twice: frames skipped while the channel opens are not counted, and a
  reattach repeats them (`Reattach.ReattachRepeatsIff`).
* The escape machine's output does not depend on how input is cut into reads, except that the read
  that quits is discarded whole (`Stdin.SentIsFixedIff`).
* A host name with white space, a comma or a leading `#` is recorded but never found again, and a
  record appended to an unterminated line can be lost (`KnownHosts.RecordedIsFoundIff`,
  `KnownHosts.RecordOutcome`).

## Model

| member | source | states |
|---|---|---|
| `Wire.TakeScalarInvertsUtf8` | crates/nosh-proto/src/datagram.rs:463-475 | decoding the UTF-8 form of any scalar returns it and leaves the rest |
| `Wire.Utf8InvertsTakeScalar` | crates/nosh-proto/src/datagram.rs:463-475 | only the canonical encoding of a scalar is accepted |
| `Wire.Utf8TextInvertsDecodeText` | crates/nosh-client/src/predictor.rs:853-937 | validated bytes are exactly the encoding of the text they decode to |
| `Postcard.VarintRoundTrip` | crates/nosh-proto/src/datagram.rs:423-427 | a varint within the width of its type decodes to itself and consumes exactly its bytes |
| `Postcard.StrRoundTrip` | crates/nosh-proto/src/datagram.rs:423-427 | length-prefixed UTF-8 strings round-trip |
| `StableSort.SortByKeyIsStable` | crates/nosh-proto/src/datagram.rs:278-286 | the sort permutes, orders by key, and keeps ties in order |
| `StableSort.SortSelect` | crates/nosh-proto/src/datagram.rs:278-286 | selecting some of the elements commutes with the sort |
| `Datagram.BodySizeIsLength` | crates/nosh-proto/src/datagram.rs:298-333 | the arithmetic size of a diff is the length of its encoding |
| `Datagram.HeaderSizeRange` | crates/nosh-proto/src/datagram.rs:29-40 | the body of a diff without runs takes 7 to 24 bytes, so with its tag at least 8, not the documented 7 |
| `Datagram.DistanceFitsU32` | crates/nosh-proto/src/datagram.rs:278-286 | the sort key never overflows its 32 bits |
| `Datagram.DatagramRoundTrip` | crates/nosh-proto/src/datagram.rs:440-457 | every diff decodes to itself, and is rejected exactly when it has more than 4096 runs |
| `Datagram.SmallHeaderBytes` | crates/nosh-proto/src/datagram.rs:29-40 | with small numbers the header is one byte each: tag, epoch, columns, rows, cursor row and column, screen flag, number of runs |
| `Datagram.SmallRunBytes` | crates/nosh-proto/src/datagram.rs:423-427 | and a run is row, column, style, two tagged colours, text length and text |
| `Datagram.EpochAckRoundTrip` | crates/nosh-proto/src/datagram.rs:170-201 | epoch acks round-trip |
| `Datagram.KindsAreDisjoint` | crates/nosh-proto/src/datagram.rs:192-201 | no byte string decodes both as a diff and as an epoch ack |
| `Packing.FitCharsInBytes` | crates/nosh-proto/src/datagram.rs:463-475 | the loop returns the largest number of leading characters that fit (`FitChars` states maximality) |
| `Packing.FitChars` | crates/nosh-proto/src/datagram.rs:463-475 | the prefix fits and one more character would not |
| `Packing.SplitIsAtCharBoundary` | crates/nosh-proto/src/datagram.rs:482-487 | cutting the bytes at the computed offset yields the encodings of the two character halves |
| `Packing.Fill` | crates/nosh-proto/src/datagram.rs:298-404 | the push-and-pop loop computes the greedy packing |
| `Packing.EncodeDatagram` | crates/nosh-proto/src/datagram.rs:261-428 | the whole encoder computes `Encode`, assertion failure included; `Nearest.RunsTakeTurns` says what that sends |
| `Packing.OutcomeIsExact` | crates/nosh-proto/src/datagram.rs:268-276 | error iff cap < 8; payload iff the bare header leaves room; then strictly below the cap |
| `Packing.CapTwentySixSuffices` | crates/nosh-proto/src/datagram.rs:406-421 | from 26 on the final assertion cannot fail |
| `Packing.MinCapIsTooSmall` | crates/nosh-proto/src/datagram.rs:29-40 | at the documented minimum the assertion fails for every diff |
| `Packing.PayloadDecodes` | crates/nosh-proto/src/datagram.rs:423-457 | a payload decodes to the header with exactly the kept runs, unless there are over 4096 |
| `Packing.GuardNeverRejects` | crates/nosh-proto/src/datagram.rs:440-457 | up to a cap of 24591 the run-count guard never fires on an encoded payload |
| `Packing.PackKeepsCells` | crates/nosh-proto/src/datagram.rs:298-404 | every cell of the runs is kept or deferred with its content, and no other cell appears |
| `Packing.PackConservesCover` | crates/nosh-proto/src/datagram.rs:335-398 | each write of a cell is kept or deferred exactly once |
| `Packing.CoverIffHas` | crates/nosh-proto/src/datagram.rs:298-404 | a cell is covered iff some run holds a content for it |
| `Nearest.KeyIsLexicographic` | crates/nosh-proto/src/datagram.rs:278-286 | inside the width the sort key compares rows between run and cursor first, then columns |
| `Nearest.SortIsNearestFirst` | crates/nosh-proto/src/datagram.rs:278-286 | the order is a permutation in which no run comes before a nearer one, and equally near runs keep their order |
| `Nearest.CursorRunIsSent` | crates/nosh-proto/src/datagram.rs:278-404 | the first run that starts at the cursor is carried whole and first if it fits beside the header |
| `Nearest.RunsTakeTurns` | crates/nosh-proto/src/datagram.rs:278-404 | every run, beside kept runs none of which is farther from the cursor, is sent whole iff it fits under the cap; else a prefix or nothing of it is sent next and the rest is deferred |
| `Progress.ProgressIff` | crates/nosh-proto/src/datagram.rs:298-404 | for every diff and cap: what is deferred is strictly less work iff some run fits an empty datagram at least in part |
| `Progress.ShrinksIff` | crates/nosh-proto/src/datagram.rs:327-388 | a run does so iff all of it fits, or the prefix tried for it fits with its true overhead |
| `Progress.AsciiShrinksIff` | crates/nosh-proto/src/datagram.rs:327-388 | for ASCII text: iff there is room beyond the constant and the true overhead of that much text is below 12 |
| `Progress.FarRunNeverShrinks` | crates/nosh-proto/src/datagram.rs:327-378 | a family of runs that never shrink because the constant is too small |
| `Progress.CompactShrinks` | crates/nosh-proto/src/datagram.rs:327-388 | a run none of whose parts reaches an overhead of 12 shrinks whenever a character fits beyond the constant |
| `Progress.PackKeepsCompact` | crates/nosh-proto/src/datagram.rs:335-398 | and so does everything deferred from such runs |
| `Progress.DefersNothingIff` | crates/nosh-proto/src/datagram.rs:298-404 | nothing is deferred iff the diff with its tag is below the cap |
| `Paint.PaintedCell` | crates/nosh-client/src/screen.rs:260-296 | a painted cell holds what some run writes there, or is untouched |
| `Paint.SameCellsPaintTheSame` | crates/nosh-client/src/screen.rs:260-296 | painting depends only on the cells written, not on order or on how runs are cut |
| `Screen.ApplyTwiceIsOnce` | crates/nosh-client/src/screen.rs:221-299 | applying a diff twice is applying it once; an older epoch and epoch 0 change nothing |
| `Screen.ApplyAllIsOneApply` | crates/nosh-client/src/screen.rs:221-299 | diffs of one tick act as one diff with all their runs |
| `Screen.OrderAndDuplicatesDoNotMatter` | crates/nosh-client/src/screen.rs:221-299 | only the set of a tick's diffs that arrive matters |
| `Screen.ResizeScreen` | crates/nosh-client/src/screen.rs:309-343 | every resize leaves all grids rectangular |
| `Screen.ResizeKeeps` | crates/nosh-client/src/screen.rs:309-343 | every cell inside both sizes survives, the rest is blank, and the cursor moves only if it would be outside |
| `Screen.ResizeAndBack` | crates/nosh-client/src/screen.rs:309-343 | growing and shrinking back restores grid and cursor |
| `Screen.AppliedCell` | crates/nosh-client/src/screen.rs:221-299 | a diff is refused without change exactly for epoch 0, an older epoch or a size beyond 512 by 256; otherwise size, cursor and epoch are taken over and each cell holds what a run writes there or what it held |
| `DiffScan.TakeDiffRun` | crates/nosh-server/src/server.rs:260-292 | the run holds the glyphs of the cells it passes, all changed and alike, and it is maximal |
| `DiffScan.ComputeDiffRuns` | crates/nosh-server/src/server.rs:232-298 | for any grid the runs are maximal, in order and apart, and reach every changed glyph; without continuation cells they hold exactly the changed cells, each once |
| `DiffScan.ScannedReproducesIff` | crates/nosh-client/src/screen.rs:260-296 | painting a scanned run gives back its cells iff no wide glyph comes before another character in it |
| `Sync.BurstCarries` | crates/nosh-server/src/server.rs:438-517 | a cell content is in the diff iff some payload of the burst carries it |
| `Sync.BurstDecodes` | crates/nosh-server/src/server.rs:438-517 | every payload is below the cap and decodes to a part with the tick's header |
| `Sync.BurstDelivers` | crates/nosh-server/src/server.rs:438-517 | all payloads in any order and multiplicity give the screen of one uncapped diff |
| `Sync.BurstSynchronisesIff` | crates/nosh-server/src/server.rs:341-416 | diff, sort, split, defer, encode, decode and apply give the server's grid iff the client agrees wherever the server saw no change since the acknowledged grid; the cursor is always copied |
| `Sync.BurstSynchronises` | crates/nosh-client/src/screen.rs:221-299 | so a client that shows the acknowledged grid ends up with the current one |
| `Sync.RevertedCellStays` | crates/nosh-server/src/server.rs:371-384 | a cell changed back before the acknowledgement keeps the content in between |
| `Leftovers.LastDecides` | crates/nosh-client/src/screen.rs:260-296 | the last run that covers a cell decides it |
| `Leftovers.LeftoversIff` | crates/nosh-server/src/server.rs:384-399 | a tick with leftovers, on any client grid, gives the current grid iff each leftover cell is current or covered by a fresh run at least as far from the cursor, and the client is right wherever no leftover writes and the server saw no change |
| `Leftovers.LeftoverTickIff` | crates/nosh-server/src/server.rs:384-455 | the same condition decides the client's screen after the encoded datagram of such a tick passes the gate |
| `Leftovers.StaleOverlapWins` | crates/nosh-server/src/server.rs:384-399 | a stale leftover farther away than the fresh run over it wins |
| `Leftovers.RevertedLeftoverWins` | crates/nosh-server/src/server.rs:384-399 | a leftover of a cell that has gone back to the acknowledged content is painted again |
| `Leftovers.HarmlessIffNotFarther` | crates/nosh-server/src/server.rs:384-399 | in rows and columns: a leftover is harmless iff it is current or some fresh run over the cell is not nearer to the cursor |
| `Sync.GateDropsTheRest` | crates/nosh-client/src/main.rs:2322-2386 | after one diff of an epoch the pump drops all others of that epoch |
| `Sync.CarriedOnce` | crates/nosh-server/src/server.rs:438-517 | no cell is carried by two payloads of a burst |
| `Sync.PayloadCompletesIff` | crates/nosh-client/src/screen.rs:221-299 | any single payload completes a client that shows the acknowledged grid iff it is the only one |
| `Sync.GatedBurstCompletesIff` | crates/nosh-client/src/main.rs:2327-2386 | through the gate, whichever payload comes first, a client that shows the acknowledged grid gets the current one iff the diff with its tag is below the cap |
| `Ticks.RunKeepsOrder` | crates/nosh-server/src/server.rs:981-1009 | over every run what is acknowledged has been applied, and what is applied or under way has been sent |
| `Ticks.CaughtUpIsFinal` | crates/nosh-server/src/server.rs:371-373 | while the server holds the client for caught up, nothing changes what the client shows until the terminal changes |
| `Ticks.SplitTickIsNeverRepaired` | crates/nosh-server/src/server.rs:986-1001 | after one tick of which any datagram came first and was acknowledged the client shows the grid iff the diff fitted one datagram, and otherwise not for any continuation without output |
| `Ticks.LostAckIsNeverRepeated` | crates/nosh-client/src/main.rs:2327-2451 | once an acknowledgement is lost, over any run without output the server is never caught up, its ticks keep their epoch, and the client changes nothing |
| `Ticks.CaughtUpWasSent` | crates/nosh-server/src/server.rs:986-1001 | whatever output comes between tick and acknowledgement, when the server holds the client for caught up the current grid was sent in an epoch the client has applied |
| `Ticks.AckTakesSnapshot` | crates/nosh-server/src/server.rs:981-1001 | the newest acknowledgement makes the grid sent in its epoch the baseline; if that snapshot is gone the baseline stays |
| `Ticks.CalmRunsStaySynchronised` | crates/nosh-server/src/server.rs:937-1009 | if output waits for the acknowledgement and ticks fit, then under any loss, repetition and reordering the acknowledged grid is what the client shows |
| `Terminal.FeedCsiBytes` | crates/nosh-client/src/screen.rs:463-534 | a control sequence acts with exactly the numbers it was written with |
| `Terminal.FeedMoveTo` | crates/nosh-client/src/screen.rs:463-534 | a cursor move reaches its target or the nearest cell; 65535 wraps |
| `Terminal.FeedSgr` | crates/nosh-client/src/screen.rs:621-647 | the rendition selected is the one written, whatever was selected before |
| `Terminal.UnionOfStyles` | crates/nosh-client/src/screen.rs:621-647 | for any union of attributes the parameters are 0, then 1, 3, 4 and 7 for those set, then the colours, and the terminal takes on exactly those |
| `Terminal.FeedUtf8` | crates/nosh-client/src/screen.rs:463-534 | the bytes of a printable scalar put that scalar, in as many columns as it is wide |
| `Render.CellBytesEffect` | crates/nosh-client/src/screen.rs:463-534 | one emitted cell changes that cell only, whether or not the move and the attributes were elided |
| `Render.CellLandsIffNarrow` | crates/nosh-client/src/screen.rs:476-527 | a printable character fills exactly the cell the emitter counts for it iff it is one column wide |
| `Render.RenderEffect` | crates/nosh-client/src/screen.rs:463-534 | on any terminal exactly the differing cells are rewritten, once each, and the caret is placed |
| `Render.DiffRefinesRepaint` | crates/nosh-client/src/screen.rs:463-534 | if the terminal shows the cache, the minimal diff makes it show the desired grid |
| `Render.RepaintIffStaleCellsAgree` | crates/nosh-client/src/screen.rs:463-545 | otherwise it does iff the terminal already agrees wherever nothing is written |
| `Predictor.NarrowTextClassification` | crates/nosh-client/src/predictor.rs:853-963 | one narrow character is predicted, over four bytes are a batch, anything between resets |
| `KeyLaws.KeysAreRecognised` | crates/nosh-client/src/predictor.rs:853-922 | left, right, home, end, erase, Enter and the paste markers are recognised by exactly their byte sequences |
| `KeyLaws.TextIsClassified` | crates/nosh-client/src/predictor.rs:876-963 | text of any widths: a batch, bulk input, a character of one or two columns, or a reset |
| `KeyLaws.OtherBytesAreNotPredicted` | crates/nosh-client/src/predictor.rs:853-963 | bytes that are not UTF-8 and other control sequences reset, or are bulk above four bytes |
| `KeyLaws.RightMoves` | crates/nosh-client/src/predictor.rs:421-431 | n times right goes n columns, to the last column at most, and changes nothing else |
| `KeyLaws.LeftMoves` | crates/nosh-client/src/predictor.rs:411-420 | n times left goes n columns, to the prompt at most |
| `KeyLaws.LeftUndoesRight` | crates/nosh-client/src/predictor.rs:411-431 | inside the line each undoes the other |
| `KeyLaws.HomeIsAllLefts` | crates/nosh-client/src/predictor.rs:432-441 | home is as many lefts as it takes |
| `KeyLaws.EnterAdvances` | crates/nosh-client/src/predictor.rs:458-486 | Enter goes to the start of the next or the last row, drops what was predicted and begins an epoch |
| `KeyLaws.BulkBeginsEpoch` | crates/nosh-client/src/predictor.rs:487-508 | bulk input keeps what is pending and begins an epoch |
| `KeyLaws.ResetFollowsServer` | crates/nosh-client/src/predictor.rs:449-457 | an unpredicted key drops everything and takes the server's cursor |
| `KeyLaws.PasteIsNotPredicted` | crates/nosh-client/src/predictor.rs:509-518 | from a paste start until its end nothing is predicted, over any run |
| `KeyLaws.TextIsPredictedAfterPaste` | crates/nosh-client/src/predictor.rs:356-394 | afterwards a character that fits is predicted at the caret for the next epoch |
| `KeyLaws.OverflowIsNotPredicted` | crates/nosh-client/src/predictor.rs:356-394 | one that does not fit begins a new epoch |
| `PredictorLaws.ResetIsFirstBetrayed` | crates/nosh-client/src/predictor.rs:573-639 | culling stops at the first due prediction whose cell on the screen differs and which was visible or became so by an echo before it |
| `PredictorLaws.CullOutcome` | crates/nosh-client/src/predictor.rs:573-639 | for every overlay and screen, by the cells shown: reset iff some due prediction is betrayed; else exactly those not due and of no refuted epoch stay, in order, and the confirmed epoch rises to the latest echoed |
| `PredictorLaws.CullOne` | crates/nosh-client/src/predictor.rs:750-760 | one due prediction: a right cell never resets and confirms its epoch iff not blank; a wrong one resets iff visible |
| `PredictorLaws.StepRaisesIffCredits` | crates/nosh-client/src/predictor.rs:573-639 | a step raises the confirmed epoch to a level iff the screen shows the non-blank character of a due prediction of that level, before anything betrayed |
| `PredictorLaws.ReachesIffCredited` | crates/nosh-client/src/predictor.rs:573-639 | over any run the confirmed epoch reaches a level iff some step saw such an echo |
| `PredictorLaws.NoEchoSafety` | crates/nosh-client/src/predictor.rs:656-671 | after an epoch bump nothing newly typed is displayed until a new echo is confirmed |
| `PredictorLaws.RunKeepsInOrder` | crates/nosh-client/src/predictor.rs:332-687 | along every run the confirmed epoch and all pending epochs stay at or below the prediction epoch |
| `PredictorLaws.HiddenUntilEchoed` | crates/nosh-client/src/predictor.rs:449-518 | from every reachable state, after Enter, an unpredicted key or a paste start nothing is displayed until a later echo is confirmed |
| `PredictorLaws.UnechoedStaysHidden` | crates/nosh-client/src/predictor.rs:449-518 | so if no screen shows, at the cell of a prediction then pending, its non-blank character, nothing typed is displayed |
| `CaretLaws.TypedIsShownIff` | crates/nosh-client/src/predictor.rs:797-818 | a character typed on a free cell is displayed at once iff predictions are displayed and its epoch is confirmed |
| `CaretLaws.FirstKeysAreShown` | crates/nosh-client/src/predictor.rs:227-243 | a row typed into a new overlay is displayed as typed before any echo |
| `CaretLaws.PromptIsAnchored` | crates/nosh-client/src/predictor.rs:275-289 | after a reset the first cursor sync records the prompt, and along any editing the caret stays right of it |
| `Prompt.EnterWaitsForKey` | crates/nosh-client/src/predictor.rs:458-486 | after Enter, along any run without keys in which nothing resets, the prompt is not recorded and the displayed caret stays on the line start |
| `Prompt.PromptRecordedIff` | crates/nosh-client/src/main.rs:2360-2386 | after Enter, along any run of datagrams and silence, the prompt is recorded iff an accepted datagram enters the alternate screen or brings a new size; then the caret follows the server's cursor |
| `Prompt.PromptIsRecordedLate` | crates/nosh-client/src/predictor.rs:275-289 | the next datagram accepted after a key that follows Enter records its own cursor column, and erasing from there is not predicted |
| `Prompt.EntryResetsOnce` | crates/nosh-client/src/main.rs:2360-2386 | of two datagrams in a row on the alternate screen the second does not reset |
| `CaretLaws.RttHysteresis` | crates/nosh-client/src/predictor.rs:733-745 | over any samples underlining and adaptive display are on iff the last decisive sample was high; pending predictions keep the display on |
| `PredictorLaws.CullAllDue` | crates/nosh-client/src/predictor.rs:573-639 | after a cull at an epoch that all predictions are due for, none is pending |
| `PredictorLaws.InputRequiresNextEpoch` | crates/nosh-client/src/predictor.rs:356-394 | an input never waits for an epoch later than the next |
| `PredictorLaws.BatchIsSinglesIff` | crates/nosh-client/src/predictor.rs:519-556 | a batch equals its characters typed singly iff at most one of them overflows the row |
| `PredictorLaws.TypeThenErase` | crates/nosh-client/src/predictor.rs:395-410 | typing k fitting characters and erasing them restores the overlay, up to the caret flag |
| `PredictorLaws.CaretStaysRightOfPrompt` | crates/nosh-client/src/predictor.rs:395-441 | along any editing run the caret stays at or right of the prompt column |
| `PredictorLaws.EndKeyCanCrossPrompt` | crates/nosh-client/src/predictor.rs:442-448 | the end key keeps it there iff the row has content there |
| `PredictorLaws.LineEndIsLast` | crates/nosh-client/src/predictor.rs:765-773 | the line end is one past the last non-blank cell |
| `EchoOverlay.Classify` | crates/nosh-client/src/predictor.rs:853-937 | the classifier method computes `ClassifyInput` |
| `EchoOverlay.RetainIsSurvivors` | crates/nosh-client/src/predictor.rs:573-639 | removing by key equals removing the due and the killed, although keys can collide |
| `EchoOverlay.PredictionOverlay.constructor` | crates/nosh-client/src/predictor.rs:227-243 | the initial overlay |
| `EchoOverlay.PredictionOverlay.OnInput` | crates/nosh-client/src/predictor.rs:332-562 | the new state is `OnAction` of the old state and the classified input |
| `EchoOverlay.PredictionOverlay.Act` | crates/nosh-client/src/predictor.rs:355-562 | every input arm, as `OnAction` |
| `EchoOverlay.PredictionOverlay.PredictChars` | crates/nosh-client/src/predictor.rs:519-556 | the batch loop stops at the first character that does not fit |
| `EchoOverlay.PredictionOverlay.Enter` | crates/nosh-client/src/predictor.rs:458-486 | the Enter arm |
| `EchoOverlay.PredictionOverlay.Scan` | crates/nosh-client/src/predictor.rs:573-639 | the first pass finds the resetting prediction, raises the epoch, and collects what to remove |
| `EchoOverlay.PredictionOverlay.CullPredictions` | crates/nosh-client/src/predictor.rs:573-639 | both passes compute `Cull` |
| `EchoOverlay.PredictionOverlay.ResetToCursor` | crates/nosh-client/src/predictor.rs:699-713 | a reset that also moves the caret |
| `Client.AcceptedDatagramEmptiesPending` | crates/nosh-client/src/main.rs:2360-2456 | a datagram past the gate leaves no prediction pending, even if its size was rejected |
| `Client.PredictionsNeverOutliveDatagram` | crates/nosh-client/src/main.rs:2322-2456 | over any run of typing, datagrams, resizes and silence, so do all predictions end |
| `Client.RenderKeepsInStep` | crates/nosh-client/src/screen.rs:423-454 | a render makes the terminal show the composed grid with the caret placed; `Display.RunIsFaithful` says what that holds |
| `Client.RunKeepsInStep` | crates/nosh-client/src/main.rs:2322-2859 | over any run of one-column text without a resize the cache agrees with the real terminal |
| `Display.RunIsFaithful` | crates/nosh-client/src/screen.rs:423-454 | over any run of one-column text without a resize each cell of the terminal shows its first confirmed-epoch prediction, plain or underlined, or else the banner in reverse video, or else the confirmed cell, and the cursor stands at the caret |
| `Display.TypedIsSeen` | crates/nosh-client/src/screen.rs:441-452 | from any state in step a character typed on a free cell stands at the old caret with the cursor behind it iff predictions are displayed and their epoch is confirmed; else the cell shows what is behind |
| `Display.DatagramIsSeen` | crates/nosh-client/src/main.rs:2322-2456 | an accepted datagram ends banner and predictions: every cell shows the applied screen |
| `Display.SilenceIsSeen` | crates/nosh-client/src/screen.rs:432-439 | once the server is silent the first row reads the banner wherever nothing is predicted |
| `Display.ServerResizeIsTaken` | crates/nosh-client/src/screen.rs:309-343 | a resize by the server reaches screen and overlay, keeps the cells inside, and drops all predictions |
| `Client.ConnectClearShowsBlank` | crates/nosh-client/src/screen.rs:572-576 | the clear at connect time brings any terminal of that size into step |
| `Client.ResetPhysicalInStepIffBlank` | crates/nosh-client/src/screen.rs:542-545 | a cache reset alone does so iff the terminal is blank |
| `Client.RenderAfterResetIff` | crates/nosh-client/src/screen.rs:309-343 | the render after it is right iff every cell wanted blank is blank already |
| `Framebuffer.PaintChars` | crates/nosh-client/src/screen.rs:260-296 | the character loop, with continuation cells and clipping, paints the row of `PaintRun` |
| `Framebuffer.PaintRunIsPaintRow` | crates/nosh-client/src/screen.rs:260-296 | painting a run changes its row and no other |
| `Framebuffer.EmitCell` | crates/nosh-client/src/screen.rs:476-527 | emission of one cell, with move and attribute elision |
| `Framebuffer.ClientScreen.constructor` | crates/nosh-client/src/screen.rs:185-203 | the initial screen |
| `Framebuffer.ClientScreen.Apply` | crates/nosh-client/src/screen.rs:221-299 | the new state is `ApplyDiff` of the old |
| `Framebuffer.ClientScreen.Resize` | crates/nosh-client/src/screen.rs:309-343 | the new state is `ResizeScreen` of the old |
| `Framebuffer.ClientScreen.EmitDiff` | crates/nosh-client/src/screen.rs:463-534 | the bytes are the minimal diff, and the cache becomes the desired grid |
| `Framebuffer.ClientScreen.RenderWithPredictor` | crates/nosh-client/src/screen.rs:423-454 | composition of confirmed cells, banner and predictions, then the diff; `Display.RunIsFaithful` states the outcome |
| `Framebuffer.ClientScreen.EmitConnectClear` | crates/nosh-client/src/screen.rs:572-576 | the clear sequence, and a blank cache |
| `OutputBuffer.SequencedOutputBuffer.Push` | crates/nosh-server/src/registry.rs:72-94 | appends under the next number, then evicts from the front down to the byte cap |
| `OutputBuffer.SequencedOutputBuffer.Trim` | crates/nosh-server/src/registry.rs:182-198 | drops the acknowledged front |
| `OutputBuffer.SequencedOutputBuffer.ReplaySince` | crates/nosh-server/src/registry.rs:136-165 | the retained chunks from the wanted number on, and whether some are gone |
| `OutputBuffer.PushKeepsGapless` | crates/nosh-server/src/registry.rs:72-94 | numbers stay consecutive up to the newest; without eviction all chunks are kept |
| `OutputBuffer.PushKeepsLongest` | crates/nosh-server/src/registry.rs:72-94 | the chunk is stored under the next number; what is kept is within the cap or the new chunk alone, and one chunk more would exceed the cap; only eviction sets the truncation mark |
| `OutputBuffer.TrimKeepsGapless` | crates/nosh-server/src/registry.rs:182-198 | exactly the chunks below the acknowledged number go |
| `OutputBuffer.FromIsSuffix` | crates/nosh-server/src/registry.rs:136-165 | a replay is the gap-free suffix from the later of the wanted and the first retained number |
| `Reattach.RunKeepsInv` | crates/nosh-client/src/main.rs:2149-2175 | the invariant of the whole system holds in every reachable state |
| `Reattach.NothingIsLost` | crates/nosh-client/src/main.rs:1652-1699 | every chunk before the stream position was delivered or reported; the count lags by exactly the skipped frames |
| `Reattach.FramesCarryOutput` | crates/nosh-server/src/registry.rs:72-165 | in every reachable state each frame retained, in flight or read carries the chunk produced under its number |
| `Reattach.BytesReadArePrefix` | crates/nosh-client/src/main.rs:2149-2175 | over any run without skips and overflow the bytes read are those of the first chunks produced, as many as the client counts |
| `Reattach.AckFreesApplied` | crates/nosh-server/src/registry.rs:182-198 | an acknowledgement that arrives frees exactly what the client has applied |
| `Reattach.CatchUpIff` | crates/nosh-client/src/client.rs:789-843 | after any run, reading a whole replay counts everything iff the channel opened first; otherwise the same frames are read and none is counted |
| `Reattach.AcksTrimOnlyDelivered` | crates/nosh-client/src/main.rs:2902-2908 | no acknowledgement discards a chunk the client has not read |
| `Reattach.ReattachReplaysTheRest` | crates/nosh-server/src/server.rs:1595-1690 | a reattach replays exactly the retained chunks the client still needs, and reports the gap before them |
| `Reattach.ReadRepeatsIff` | crates/nosh-client/src/main.rs:2149-2175 | in every reachable state the next read is a repetition iff its chunk is below the high-water mark |
| `Reattach.ReattachRepeatsIff` | crates/nosh-server/src/server.rs:1595-1690 | a reattach repeats a delivered chunk iff it is retained and lies between the applied-count and the high-water mark |
| `Reattach.ReadComesAgainIff` | crates/nosh-client/src/client.rs:789-843 | a retained frame just read comes again after a lost link iff the channel was opening or an earlier frame was skipped |
| `Reattach.FirstLinkHigh` | crates/nosh-client/src/client.rs:789-843 | on a first link that mark is the applied-count plus the skipped frames |
| `Reattach.SkippedFrameIsReplayed` | crates/nosh-client/src/client.rs:789-843 | so every retained skipped frame comes again |
| `Reattach.NoSkipNoRepeat` | crates/nosh-client/src/main.rs:2149-2175 | over every run that skips no frame each chunk is read at most once |
| `Credit.SenderTask.OnCredit` | crates/nosh-server/src/channel.rs:353-418 | grants add, saturating |
| `Credit.SenderTask.TrySend` | crates/nosh-server/src/channel.rs:353-444 | a page is sent iff the window admits it, and is charged in full |
| `Credit.DrainTask.OnFrame` | crates/nosh-client/src/channel.rs:240-304 | bytes are granted back once a chunk has been drained |
| `Credit.DrainFrame` | crates/nosh-client/src/channel.rs:240-304 | drained bytes are held or granted, never lost, and fewer than a chunk are held |
| `Credit.RunConserves` | crates/nosh-server/src/channel.rs:249-458 | credit, pages and grants in flight and drained bytes always sum to the window; saturation never happens |
| `Credit.StallsIffPageTooLarge` | crates/nosh-server/src/channel.rs:353-418 | a page can wait with nothing in flight iff it exceeds 131073 bytes |
| `Credit.OnlyClosingEndsStall` | crates/nosh-server/src/channel.rs:364-404 | such a wait ends only with the timeout or a close of channel or session; either ends the channel with the page unsent |
| `Credit.SafePageIsEventuallySent` | crates/nosh-server/src/channel.rs:353-444 | from every reachable state a waiting safe page is sent once all in flight has arrived |
| `InnerAuth.SpkiRoundTrip` | crates/nosh-auth/src/keys.rs:345-355 | a key is parsed from exactly its own encoding |
| `InnerAuth.TranscriptsSeparate` | crates/nosh-client/src/inner_auth.rs:73-106 | each transcript fixes every field, and no client transcript is a server transcript |
| `InnerAuth.PreimagesAreSigned` | crates/nosh-server/src/inner_auth.rs:54-90 | the transcripts are the hashes of label, exporter value, server nonce, client nonce and peer key, in that order |
| `InnerAuth.RunKeepsInv` | crates/nosh-server/src/inner_auth.rs:131-254 | over every run with an outsider on the wire, honest signatures have a run behind them |
| `InnerAuth.ServerAcceptImpliesClientRun` | crates/nosh-server/src/inner_auth.rs:131-254 | a server that accepts an honest key has an authorized client that ran this session, nonces and host key |
| `InnerAuth.ClientAcceptImpliesServerRun` | crates/nosh-client/src/inner_auth.rs:136-282 | a client that accepts an honest host key matches its pin and has a server that accepted it in this session |
| `InnerAuth.ServerAcceptsIff` | crates/nosh-server/src/inner_auth.rs:164-225 | a waiting server accepts iff it gets a 64-byte signature that the owner of an authorized key issued over these fields |
| `InnerAuth.ClientAnswersIff` | crates/nosh-client/src/inner_auth.rs:158-244 | a client signs iff the challenge has its own exporter value and a host key that is pinned or, unpinned, accepted by the user |
| `InnerAuth.ClientAcceptsIff` | crates/nosh-client/src/inner_auth.rs:246-282 | it accepts iff the completion has 64 bytes that the host key issued over the same fields |
| `InnerAuth.HonestHandshakeCompletes` | crates/nosh-server/src/inner_auth.rs:131-254 | after any run, for all keys and nonces, an honest exchange ends with the server accepting iff the key is authorized, and then the client accepts and both agree |
| `Messages.RoundTrip` | crates/nosh-proto/src/messages.rs:57-414 | every value of every schema decodes to itself and leaves what followed, nested lists and variants included |
| `Messages.MessageRoundTrip` | crates/nosh-proto/src/codec.rs:51-53 | every control message decodes from its body, whatever follows it |
| `Messages.TakeHasShape` | crates/nosh-proto/src/codec.rs:51-53 | whatever decodes is a well-typed message |
| `Messages.AppendedVariantsAgree` | crates/nosh-proto/src/messages.rs:464-468 | appending variants keeps old encodings and what old bytes decode to |
| `Messages.FirstByteIsVariant` | crates/nosh-proto/src/codec.rs:276-319 | every message begins with its variant number, 0 to 21 |
| `Messages.ReattachBytes` | crates/nosh-proto/src/codec.rs:280-290 | the bytes of an acknowledgement, a reattach and its refusal |
| `Codec.FrameRoundTrip` | crates/nosh-proto/src/codec.rs:38-77 | an encoded frame reads back as its message and leaves what follows |
| `Codec.FramedIff` | crates/nosh-proto/src/codec.rs:38-48 | a message is framed iff its body has at most 16 MiB, behind its big-endian length |
| `Codec.ReadOutcome` | crates/nosh-proto/src/codec.rs:67-77 | for any bytes: end, too large, bad body or message, and exactly what is consumed |
| `Codec.CutFrame` | crates/nosh-proto/src/codec.rs:67-77 | a frame cut short is an end of stream, never a message |
| `Codec.StreamRoundTrip` | crates/nosh-proto/src/codec.rs:38-77 | sequential reads of the frames of any list of messages return exactly that list |
| `Codec.CutStream` | crates/nosh-proto/src/transport_trait.rs:281-331 | cut at any byte, the stream yields a prefix of the list and nothing else |
| `Codec.RecvStream.ReadMessage` | crates/nosh-proto/src/transport_trait.rs:281-331 | reading computes `ReadFrame`, and never asks for a buffer above 16 MiB |
| `Codec.RecvStream.ReadVarintU32` | crates/nosh-server/src/channel.rs:74-93 | the loop computes the varint modulo 2^32 and consumes exactly its bytes |
| `Codec.ChannelIdRoundTrip` | crates/nosh-server/src/channel.rs:74-93 | every channel id reads back, leaving what follows |
| `Codec.ChannelIdAgreesIff` | crates/nosh-server/src/channel.rs:74-93 | it agrees with the postcard decoder iff there is no fifth byte of 16 to 127 |
| `Codec.OverlongIdIsTruncated` | crates/nosh-server/src/channel.rs:74-93 | an input that postcard rejects reads as channel 0 |
| `KnownHosts.HostKeyVerifier.LookupKnownHost` | crates/nosh-auth/src/keys.rs:168-193 | the loop returns the first pin for the host |
| `KnownHosts.HostKeyVerifier.RecordKnownHost` | crates/nosh-auth/src/keys.rs:197-225 | appends one line |
| `KnownHosts.HostKeyVerifier.VerifyServerCert` | crates/nosh-auth/src/verifier.rs:106-177 | the decision and the file afterwards are those of `Verify` |
| `KnownHosts.LookupAppended` | crates/nosh-auth/src/keys.rs:168-225 | in a terminated file the first pin stands whatever is appended |
| `KnownHosts.RecordedIsFoundIff` | crates/nosh-auth/src/keys.rs:197-225 | on first contact the recorded key is found again iff the host name is plain |
| `KnownHosts.RecordOutcome` | crates/nosh-auth/src/keys.rs:197-225 | for any file, whatever it ends with: what it pins for a plain name after recording it |
| `KnownHosts.UnterminatedCommentSwallows` | crates/nosh-auth/src/keys.rs:197-225 | a comment without a newline swallows the record |
| `KnownHosts.PinNeverChanges` | crates/nosh-auth/src/verifier.rs:106-177 | after a key is accepted, any later verification of that host accepts exactly that key and writes nothing |
| `KnownHosts.FirstContactIff` | crates/nosh-auth/src/verifier.rs:133-172 | on first contact a key is accepted iff the policy invites it and it can be written; then its line is appended, otherwise the file is unchanged |
| `KnownHosts.TrustOnFirstUse` | crates/nosh-auth/src/verifier.rs:106-177 | over any verifications of plain names the file pins the first invited key, and none while every key is turned away |
| `Stdin.CsiAccumulator.Process` | crates/nosh-client/src/main.rs:392-439 | the call computes `ScanAll` of the held bytes and the input |
| `Stdin.ScanPending` | crates/nosh-client/src/main.rs:410-433 | the scanning loop computes the scan and the index from which bytes are held |
| `Stdin.ScanSplit` | crates/nosh-client/src/main.rs:392-439 | scanning in two parts equals scanning at once |
| `Stdin.HeldIsProperPrefix` | crates/nosh-client/src/main.rs:392-453 | at most five bytes are held, and they begin a paging sequence |
| `Stdin.PagingFilterIsChunkIndependent` | crates/nosh-client/src/main.rs:392-439 | for any cutting into reads: forwarded plus held bytes are the input without the sequences, and the flags tell which occurred |
| `Stdin.EscapeMachine.ProcessInput` | crates/nosh-client/src/main.rs:512-568 | the loop computes `Process` of the old state |
| `Stdin.ProcessSplit` | crates/nosh-client/src/main.rs:512-568 | processing in two parts equals processing at once, up to a quit |
| `Stdin.QuitIsChunkIndependent` | crates/nosh-client/src/main.rs:512-568 | quitting does not depend on the reads; what is sent does not either unless the client quits |
| `Stdin.SentIsFixedIff` | crates/nosh-client/src/main.rs:512-568 | what is sent is independent of the reads iff the client does not quit or nothing has been forwarded by then |
| `Stdin.QuitsIffTildeDot` | crates/nosh-client/src/main.rs:512-568 | the client quits iff `~.` stands at a line start |
| `Stdin.ForwardsWhatIsMeant` | crates/nosh-client/src/main.rs:512-568 | otherwise exactly the text meant by the escapes is forwarded |
| `Stdin.EscapeIsRightInverse` | crates/nosh-client/src/main.rs:512-568 | doubling line-start tildes sends any text unchanged, without quitting |

## Left out

- Sync.BurstDelivers: caps from 17 above the bare header up to 24591, and runs whose parts all have an overhead below 12; outside them a run may never shrink (`Progress.FarRunNeverShrinks`) or the decoder may reject a payload. Runs of accepted terminal sizes always qualify.
- Sync.BurstSynchronisesIff: no wide glyphs, whose runs do not denote their cells (`DiffScan.ScannedReproducesIff`); the burst runs to its end, so the burst limit and a full send buffer are not modelled.
- Sync.GatedBurstCompletesIff: the scrollback gate in front of the epoch gate is not modelled.
- Leftovers.LeftoverTickIff: ticks with leftovers that fit one datagram; when such a tick is split, the next leftovers are its parts.
- DiffScan.ScannedReproducesIff: rows as the server's terminal lays them out, each wide glyph followed by its continuation cell.
- Ticks: the terminal keeps its size and has no wide glyphs, no runs are left over, and the loop's timer is an event.
- Nearest.SortIsNearestFirst: cursor and runs start inside the width; outside it one column more can outweigh a row.
- Client.RunKeepsInStep: cells and text of one column and no resize; after a resize the cache and the terminal can disagree (`Client.RenderAfterResetIff`).
- PredictorLaws.BatchIsSinglesIff: terminals of fewer than 65535 columns.
- Predictor epoch counters, sequence numbers and applied-counts are unbounded; datagram epochs and the `epoch + 1` of a prediction have 64 bits.
- The Unicode width table is a parameter, which client and terminal share; banner text, clock and measured round-trip times are inputs.
- The modelled terminal erases to the default rendition. Of what the client writes it knows what the renderer and the connect-time clear emit; the passed-through OSC sequences for titles, clipboard and links are not modelled.
- Scrollback paging: cropping, the view, and the hand-over back to the live grid at the snapshot epoch.
- The server's terminal emulator, PTY handling, session registry, tokens and their rotation.
- Signatures, hashes and the TLS exporter are ideal: a signature verifies only if its key issued it, digests do not collide, and the exporter value of each run is an input.
- InnerAuth: timeouts and the wording of the first-contact prompt; its outcome is an input.
- Messages: field types are as declared; semantic checks that receivers make on messages are not part of the schema.
- Decoding errors of postcard and UTF-8 are one failure value.
- Cancelled reads, which can desynchronise a framed stream, and I/O errors other than an early end.
- KnownHosts: the OpenSSH key-line parser is a parameter that round-trips printed keys; concurrent writers, hashed hosts and `authorized_keys` options are not modelled.
- The test-only echo channel, transport set-up, and the command line.
