# Template literal editor: a verified model of its sync engine

The extension lets a user open the template literal under the cursor of a
host document in a side-by-side mirror subdocument, in another language mode,
and keeps the two in step: edits in the mirror are copied over the tracked
range of the host, and edits in the host move the tracked range (or, when
they fall inside it, are copied into the mirror). This project models the
engine behind it in `src/extension.ts`:

- `Locator`: finding the template under the cursor, from the matches of the
  configured regular expression (first match with three groups that covers
  the cursor) or from the TypeScript syntax tree (the outermost template
  literal around the cursor), and the "found" test on the start offset.
- `Positions`, `Lines`: editor positions and ranges with the editor's
  ordering (`isBefore`/`isAfter` strict, `contains` inclusive), and splitting
  text into lines on `\r\n`, `\r` or `\n`.
- `Tracker`: the range tracker of the change listener: the validity check of
  a change batch, the per-change `lineDiff`/`charDiff` arithmetic, the batch
  loop with its one deferred mirror sync, and the range recomputed after the
  mirror is written back to the host.
- `TextModel`: documents as sequences of lines, with reading and replacing a
  range. Against it the tracker is shown to be right: after an edit outside
  the range the adjusted range holds the same text; after an edit inside it
  holds the old text with that edit applied; after a write-back it holds
  exactly the mirror's lines.
- `Origins`: the change-origin tag (`activate`, `document`, `subdocument`,
  `dispose`, null) as a state machine over change notifications.
- `Pairings`: the pairing of a host and its mirror (class `Pairing`: range,
  origin, closed, close reason) with its listeners, syncs and close, and the
  registry of open pairings by host document (class `Registry`).

Editor calls (showing an editor, applying an edit) are not executed by the
model: the outcome of an edit is a parameter (`EditOutcome`), and what the
edits do to the document text is stated by the `TextModel` lemmas.

Behaviour of the code worth knowing:
- Closing a pairing does not cancel a pending throttled sync (lines 455 and
  498 against 540-546); the sync methods do not look at `closed`.
- A sync of a pairing that is already closed can still fail (lines 488 and
  525), and its close then removes the host's registry entry (line 546) even
  when that entry now belongs to a newer pairing of the same host. The next
  activation on that host finds nothing to close (line 154), so two open
  pairings listen to one host (`Pairings.LateSyncFailureOrphansPairing`).
  Closing is not idempotent either: each close removes whatever entry the
  host has.
- A change event is checked against the range as it was before the event
  (lines 227-233), but each change is then placed against the range the
  earlier changes of the event left (lines 248-293). A change that passed the
  check can overlap the moved range; it is then skipped silently, and the
  range goes out of step with the text. The code is right only when the
  editor reports an event's changes from the end of the document backwards
  (`Tracker.BatchPassesButLaterChangeOverlaps`).
- After a write-back, the new end column is `start.character` plus the
  length of the mirror's last line for a one-line mirror, and the length of
  the last line otherwise (lines 474-477).
- An edit that starts before the range and ends exactly at its start is not
  trackable and closes the pairing; a pure insertion exactly at either end of
  the range counts as inside it (`Tracker.EditEndingAtStartIsNotTrackable`,
  `Tracker.InsertionAtBoundaryIsInside`).

## Model

| member | source | states |
|---|---|---|
| Lines.SplitLines | src/extension.ts:259 | the pieces between `\r\n`, `\r` or `\n` breaks: at least one, none holding a break |
| Lines.SplitJoin | src/extension.ts:297 | splitting break-free lines joined with line feeds gives the same lines back |
| Lines.JoinSplit | src/extension.ts:259 | joining the pieces gives the text back with every break written as a line feed |
| Locator.Selects | src/extension.ts:64-66 | a match selects the cursor when all three groups took part and the cursor lies on the match, both ends included |
| Locator.BodyInterval | src/extension.ts:67-68 | the body group's offsets: from the match offset plus the prefix group's length, for the body group's length |
| Locator.FirstSelected | src/extension.ts:63-71 | the index of the first match with all three groups whose span covers the cursor, boundaries included, or the number of matches |
| Locator.LocateByPattern | src/extension.ts:62-72 | the search loop yields the body-group offsets of the first selecting match, or 0 and 0 if none selects |
| Locator.OutermostIndex | src/extension.ts:77-86 | the last template literal in the chain from the cursor's token to the root, with none after it; -1 if there is none |
| Locator.OutermostTemplate | src/extension.ts:78-86 | the parent walk returns the outermost template literal node, or none |
| Locator.Located | src/extension.ts:73-96 | what the command opens: the selected body, or the outermost template literal without its backticks, unless the start offset is 0 |
| Locator.Locate | src/extension.ts:53-96 | the command's search by strategy followed by the `templateStart !== 0` test gives `Located` |
| Locator.PatternOpensFirstCoveringBody | src/extension.ts:63-96 | the pattern strategy opens something iff some first selecting match has a body not starting at offset 0, and then opens that body |
| Locator.SyntaxOpensAnyTemplate | src/extension.ts:77-96 | the syntax strategy opens something iff the chain holds a template literal |
| Locator.BodyAtDocumentStartIsNotOpened | src/extension.ts:96 | a covering match at offset 0 with an empty prefix group is treated as nothing found |
| Locator.BacktickLiteralOpensItsContent | src/extension.ts:63-71 | a backtick literal at the document start opens its content between the backticks |
| Tracker.InsertedLines | src/extension.ts:259 | the lines of a change's text, split as the listener splits it; at least one |
| Tracker.IsTrackable | src/extension.ts:228-232 | a change ends strictly before the range start, starts strictly after its end, or lies inside it, ends included |
| Tracker.BatchIsValid | src/extension.ts:227-233 | every change of the event is trackable against the range |
| Tracker.PlacementOf | src/extension.ts:249-293 | the branch taken for a change: after means it starts after the range end, before that it ends before the range start, inside that it lies between start and end; the overlapping case is exactly the untrackable one |
| Tracker.LineDiff | src/extension.ts:259-260 | the line the change's end moves to is the line where writing the inserted lines at the change's start ends |
| Tracker.CharDiff | src/extension.ts:262-274 | no column shift for a change ending above the anchor line; a change ending on the anchor line before its column never moves it below column 0 |
| Tracker.Adjust | src/extension.ts:249-324 | the range after one change is still well formed (start not after end) |
| Tracker.TrackableIffPlaced | src/extension.ts:227-233 | a change passes the validity test iff the listener's if/else chain places it after, before or inside the range |
| Tracker.AdjustBeforeFollowsText | src/extension.ts:255-287 | a change before the range moves both ends to where writing the inserted lines and the untouched text after it places them |
| Tracker.AdjustWithinFollowsText | src/extension.ts:293-321 | a change inside the range keeps the start and moves the end to where the inserted lines and the untouched text after them end |
| Tracker.AdjustOutsideKeepsExtent | src/extension.ts:249-287 | a change after the range leaves it unchanged; one before it keeps its line span and its end column (single-line: its width) |
| Tracker.AdjustAboveStartLine | src/extension.ts:262-287 | a change ending above the start line shifts both lines by lineDiff and no column |
| Tracker.AdjustOnStartLine | src/extension.ts:264-287 | a change ending on the start line puts the start column at last inserted line + gap to the start (+ change start for a one-line insert); the end column follows only on a single-line range |
| Tracker.AdjustWithinKeepsStart | src/extension.ts:293-321 | a change inside keeps the start; the end line moves by lineDiff and the end column only when the change reaches the end line |
| Tracker.EditEndingAtStartIsNotTrackable | src/extension.ts:227-233 | an edit from before the range to exactly its start fails the validity test |
| Tracker.InsertionAtBoundaryIsInside | src/extension.ts:249-293 | a pure insertion at either boundary is inside the range; at the end, the end moves past the inserted text |
| Tracker.TrackAll | src/extension.ts:246-325 | the range after a whole batch, applied change by change, is well formed |
| Tracker.BatchPassesButLaterChangeOverlaps | src/extension.ts:227-293 | a two-change event that passes the check against the original range, whose second change overlaps the range the first left and is skipped, with no sync |
| Tracker.TrackBatch | src/extension.ts:246-328 | the listener's loop over the batch yields the range and sync flag of `TrackAll` |
| Tracker.SyncIffSomeChangeWithin | src/extension.ts:246-328 | one mirror sync is requested iff some change lay inside the range it was tested against |
| Tracker.ChangesAfterRangeChangeNothing | src/extension.ts:249-254 | a batch entirely after the range leaves the range unchanged and requests no sync |
| Tracker.WriteBackRange | src/extension.ts:469-478 | after a write-back the start is unchanged and the range is well formed |
| Tracker.WriteBackEndsAfterMirrorText | src/extension.ts:469-478 | the written-back end is where writing the mirror's lines at the start ends: line start + lineCount - 1 |
| Tracker.WriteBackOfThreeLines | src/extension.ts:469-478 | a one-line range on line 3 written back from a three-line mirror ends on line 5 at the last line's length |
| TextModel.WriteBackCoversMirror | src/extension.ts:466-478 | after replacing the range with the mirror's text, the recomputed range is valid and holds exactly the mirror's lines |
| TextModel.MirrorRoundTrip | src/extension.ts:336-338 | copying the range to the mirror and straight back leaves the host text and the range unchanged |
| TextModel.AdjustKeepsOutsideText | src/extension.ts:249-291 | after an edit before or after the range, the adjusted range is valid and holds the same text |
| TextModel.AdjustAppliesInsideEdit | src/extension.ts:293-324 | after an edit inside the range, the adjusted range holds the old text with the same edit applied at the same relative place |
| Origins.Classify | src/extension.ts:203-225 | disposal ignores everything; a pending tag is consumed exactly by a notification on the document it was set for; otherwise the tag stays, a mirror edit requests a host sync and a host edit is tracked, whatever the tag |
| Origins.Run | src/extension.ts:202-225 | the listener over a sequence of notifications reacts once to each |
| Origins.DisposeIgnoresEverything | src/extension.ts:204-206 | once disposing, every notification is ignored and the tag stays `dispose` |
| Origins.TagConsumedByFirstEcho | src/extension.ts:208-225 | a pending tag survives the notifications that are not its echo, none of which is swallowed, and the first echo resets it to null |
| Origins.UntaggedEditsAreGenuine | src/extension.ts:213-226 | with no tag, every mirror edit requests a host sync and every host edit is tracked |
| Origins.ActivationSuppressesFirstMirrorEdit | src/extension.ts:208-212 | after activation, host edits are tracked, the first mirror notification is swallowed and the next requests a host sync |
| Origins.TagSurvivesHostEdits | src/extension.ts:221-226 | host edits leave the activation tag pending |
| Pairings.Registry.constructor | src/extension.ts:19-21 | the registry starts empty |
| Pairings.Registry.Reserve | src/extension.ts:154-166 | a live pairing for the document is closed with "Reloading.", keeping its range and sync counts, and a placeholder takes its entry |
| Pairings.Registry.Register | src/extension.ts:623 | the pairing's own handle replaces the host's entry, keeping one valid entry per host |
| Pairings.Registry.Open | src/extension.ts:139-199 | the host's previous pairing is closed with "Reloading." (range and sync counts kept); a fresh pairing with the given range and origin `activate` is registered for the host |
| Pairings.Registry.CloseAll | src/extension.ts:632-634 | every live pairing is closed with the reason (tag `dispose`, range and sync counts kept) and its entry removed; placeholders stay |
| Pairings.Registry.CloseViaShortcut | src/extension.ts:32-43 | the close command closes every live pairing with the shortcut reason, tag `dispose`, range and sync counts kept |
| Pairings.Registry.Deactivate | src/extension.ts:630-640 | deactivation closes every live pairing with the deactivation reason, tag `dispose`, range and sync counts kept |
| Pairings.Pairing.constructor | src/extension.ts:199 | a new pairing has its range, origin `activate`, is open and has requested no sync |
| Pairings.Pairing.TargetOf | src/extension.ts:207-221 | a notification is about the mirror, the host, or another document |
| Pairings.Pairing.Close | src/extension.ts:535-546 | the tag becomes `dispose`, the pairing is closed with the reason and the host's registry entry is removed; the range stays |
| Pairings.Pairing.OnTextChange | src/extension.ts:202-332 | after disposal nothing changes; otherwise the tag steps by `Classify`, a genuine mirror edit requests a host sync, and a genuine host batch is tracked by `TrackAll` (one mirror sync if some change fell inside) or, if invalid, closes the pairing with the range untouched |
| Pairings.Pairing.OnDocumentClosed | src/extension.ts:425-442 | closing the host or the mirror closes an open pairing with the matching reason, range and sync counts kept; other documents change nothing |
| Pairings.Pairing.SyncToHost | src/extension.ts:455-496 | an unavailable editor closes the pairing with the range untouched; otherwise the tag becomes `subdocument` and the range `WriteBackRange` of the mirror's text, and a refused edit then closes the pairing |
| Pairings.LateSyncFailureOrphansPairing | src/extension.ts:480-546 | a failed sync of a pairing closed for reloading removes its successor's entry, and the next activation leaves two open pairings on one host |
| Pairings.Pairing.SyncToMirror | src/extension.ts:498-533 | the tag becomes `document` and the range stays; an unavailable editor or a refused edit closes the pairing |

## Left out

- Every editor and workbench call (showing documents and editors, opening
  subdocuments, the quick pick of languages, configuration, commands): their
  outcomes are parameters or are not modelled.
- The regular-expression engine and the TypeScript parser: their results
  (the list of matches, the chain of nodes from the cursor's token to the
  root) are inputs. A pattern that matches the empty string would make the
  source's search loop forever; the list of matches is finite here.
- Converting offsets to positions for the opened interval, the cursor and
  viewport moves in the mirror, and the language choice: cosmetic or
  dependent on live editor state.
- Throttling and the timer delays: the model counts sync requests
  (`hostSyncRequests`, `mirrorSyncRequests`) and exposes each sync as a
  method; which requests are coalesced into one execution is not modelled.
- Pairings.Pairing.Close: closing the mirror's editor, the focus moves and
  the tainting edit of a named mirror are not modelled; only the state
  effects (tag, listeners, registry entry) are.
- Pairings.Registry.CloseAll: the loop picks the remaining entries in any
  order, where the source follows insertion order; the final state does not
  depend on it. Activations interleaved with the awaited closes are not
  modelled.
- Pairings.Registry.Open: the awaits between reserving and registering (the
  placeholder delay, the mirror's creation, the seeding edit) are not
  interleaved with other events; the seeding edit's notification is the
  first mirror notification handled by `OnTextChange`.
- The content of the two documents inside the classes: the pairing holds
  the range and the tag; what the text of the documents is before and after
  each edit is stated separately in `TextModel`.
- Debug-only behaviour (the constant `DEBUG` is false): the extra sync
  requests for changes outside the range and the logging.
- Edits made to both documents before either echo arrives: the source does
  not handle them and neither does the model.
- TextModel.MirrorRoundTrip: the mirror holds the range's lines joined with
  line feeds; the host's own end-of-line sequence is not modelled.
- Character counting: the editor counts columns and string lengths in UTF-16
  code units; here each `char` stands for one UTF-16 code unit. Nothing in
  the model looks at characters other than `\r` and `\n`.
