# HR Fun Hub: a verified model of its core

HR Fun Hub is a small React tool for company events. It has three tabs:

- a **list editor**, where names are typed or uploaded;
- a **lucky draw**, a slot-machine style prize draw;
- **auto grouping**, which shuffles the participants into teams and names each team.

This project models the logic behind those tabs in Dafny and proves what the code promises about it. The modules are:

- `Types` (`types.dfy`): the shared records `Participant`, `Group`, the tab names and an `Option` for nullable state.
- `Text` (`text.dfy`): JavaScript `trim` over a fixed whitespace set, and the trim-then-drop-blanks step applied to names.
- `ListManager` (`list_manager.dfy`): the parse `split(/[\n,]+/).map(trim).filter(non-empty)`, the newline join used after an upload, and the editor's event handlers as functions on the editor state.
- `App` (`app.dfy`): turning names into participants, and the `AppState` class holding the active tab and the participant list.
- `AutoGrouping` (`auto_grouping.dfy`): the Fisher-Yates shuffle, done in place on a copied array. The shuffled list is then cut into `ceil(n/k)` slices and each team is named. `GroupingState` is the panel's state.
- `LuckyDraw` (`lucky_draw.dfy`): the candidate pool, the tick loop of a draw, the winner history and the reset, in the class `DrawState`.
- `Arith` (`arith.dfy`): facts about multiplication, division and remainder that the proofs above rely on.

Random choices are inputs to the model:

- the swap indices of the shuffle;
- the random part of the draw's tick count;
- the random ids of participants and groups;
- the team names returned by the naming service.

## Model

| member | source | states |
|---|---|---|
| Types.Names | types.ts:2-5 | the name list has one entry per participant, in order |
| Text.Trim | App.tsx:15 | the result is the slice of the input left after cutting whitespace-only ends, and it has no whitespace at either end; it is empty exactly when the input is all whitespace; trimmed input is returned unchanged |
| Text.TrimAll | App.tsx:13-15 | mapping `trim` keeps the length, and entry k is the trim of input k |
| Text.KeepNonEmpty | App.tsx:16 | the filter keeps only non-empty entries, each taken from the input, and never lengthens the list |
| Text.Clean | components/ListManager.tsx:25 | definition of `map(trim).filter(non-empty)`; properties in `CleanYieldsCleanNames`, `CleanAppend`, `CleanOfCleanNames` and `CleanEmptyIffAllBlank` |
| Text.CleanYieldsCleanNames | components/ListManager.tsx:25 | after trim and filter every name is non-empty and trimmed, and there are no more names than pieces |
| Text.CleanAppend | components/ListManager.tsx:25 | trim-and-filter works piece by piece, so it keeps input order |
| Text.CleanOfCleanNames | App.tsx:13-16 | names that are already non-empty and trimmed pass through trim-and-filter unchanged |
| Text.CleanEmptyIffAllBlank | components/ListManager.tsx:25 | trim-and-filter yields nothing exactly when every piece is all whitespace |
| ListManager.SeparatorIndex | components/ListManager.tsx:25 | the index of the first `\n` or `,` (or the length if there is none) |
| ListManager.SeparatorRun | components/ListManager.tsx:25 | the length of the maximal run of separators the text starts with, so `+` in the pattern matches the whole run |
| ListManager.Split | components/ListManager.tsx:25 | definition of `split(/[\n,]+/)`, empty end pieces included; properties in `SplitPiecesHaveNoSeparator` and `ParseSkipsLeadingSeparators` |
| ListManager.Parse | components/ListManager.tsx:25 | definition of the split-trim-filter parse shared with :36; properties in `ParseYieldsCleanNames`, `ParseConcat`, `ParseEmptyIffBlank` and `ParseJoinParse` |
| ListManager.Join | components/ListManager.tsx:37 | definition of `join('\n')`; its round trip with the parse is `ParseJoin` |
| ListManager.SplitPiecesHaveNoSeparator | components/ListManager.tsx:25 | no piece of `split(/[\n,]+/)` contains a separator |
| ListManager.ParseYieldsCleanNames | components/ListManager.tsx:25 | every parsed name is non-empty, trimmed, and free of `\n` and `,` |
| ListManager.ParseEmptyString | components/ListManager.tsx:25 | the empty text parses to no names |
| ListManager.ParseSkipsLeadingSeparators | components/ListManager.tsx:25 | separators at the start of the text do not change the parse |
| ListManager.ParseSegment | components/ListManager.tsx:25 | a text with no separator parses to its trim, or to nothing when it is blank |
| ListManager.ParseConcat | components/ListManager.tsx:25 | parsing distributes over a separator, so names come out in the order of their segments |
| ListManager.ParseEmptyIffBlank | components/ListManager.tsx:25 | the text parses to no names exactly when it holds only separators and whitespace |
| ListManager.ParseJoin | components/ListManager.tsx:36-37 | joining clean, separator-free names with `\n` and parsing gives the same names back |
| ListManager.ParseJoinParse | components/ListManager.tsx:36-37 | parse after join after parse equals parse |
| ListManager.HandleTextChange | components/ListManager.tsx:20-22 | typing replaces the text and sends no update |
| ListManager.HandleApply | components/ListManager.tsx:24-27 | Apply keeps the text and sends its parse |
| ListManager.HandleFileUpload | components/ListManager.tsx:34-38 | an upload sends the parse of the file, the same parse Apply uses, and leaves text that parses to exactly what was sent |
| ListManager.HandleClearAll | components/ListManager.tsx:97 | clear-all empties the text and sends an empty list, and the two agree |
| ListManager.ApplyAfterUpload | components/ListManager.tsx:24-27 | pressing Apply right after an upload sends the same list again |
| App.BuildParticipants | App.tsx:12-16 | the new list is never longer than the input names |
| App.BuildParticipantsNames | App.tsx:13-16 | the stored names are, in order, the trims of the input names that are not blank |
| App.BuildParticipantsCleanNames | App.tsx:15-16 | every stored name is non-empty and trimmed |
| App.BuildParticipantsIds | App.tsx:14 | every stored id is one of the ids drawn for the input |
| App.BuildParticipantsKeepsCleanNames | App.tsx:13-16 | clean input is kept whole: one participant per name, with entry k being `ids[k]` with `names[k]` |
| App.ApplyStoresEveryParsedName | components/ListManager.tsx:25 | the names sent by the editor are stored one for one, so the list length equals the parse length |
| App.AppState.constructor | App.tsx:9-10 | the app starts on the list tab with no participants |
| App.AppState.SelectTab | App.tsx:35-60 | the list tab is always selectable, from any state; draw and grouping are ignored while the list is empty; the participants are unchanged; a consistent screen stays consistent, and a click on the list tab makes any screen consistent |
| App.AppState.UpdateParticipants | App.tsx:12-17 | an update on any tab replaces the list wholesale with the built list and keeps the tab, so an empty list off the list tab is possible |
| App.LateBlankUploadEmptiesDrawTab | components/ListManager.tsx:34-38 | a file of separators only, read after a move to the draw tab, leaves the draw panel shown with an empty list |
| App.AppState.UpdateParticipantsGuarded | App.tsx:47 | the update with a fall-back to the list tab when the new list is empty: it stores the same list and always keeps draw and grouping off an empty list |
| AutoGrouping.Swap | components/AutoGrouping.tsx:20 | a swap keeps the length |
| AutoGrouping.SwapPermutes | components/AutoGrouping.tsx:20 | a swap keeps the multiset of elements |
| AutoGrouping.SwapsDownFrom | components/AutoGrouping.tsx:18-21 | the swaps of the loop from a given index down to 1, keeping the length; properties in `SwapsDownFromStep` and `SwapsDownFromPermutes` |
| AutoGrouping.FisherYates | components/AutoGrouping.tsx:16-23 | definition of the shuffle for given choices, the reference `Shuffle` is proved equal to; permutation in `SwapsDownFromPermutes` |
| AutoGrouping.SwapsDownFromStep | components/AutoGrouping.tsx:18-21 | one loop turn swaps at `i` with `picks[i]`, and the swaps left are those from `i-1` down |
| AutoGrouping.SwapsDownFromPermutes | components/AutoGrouping.tsx:18-21 | every swap sequence with `0 <= j <= i` keeps the multiset |
| AutoGrouping.Shuffle | components/AutoGrouping.tsx:16-23 | the in-place loop over a copy yields the Fisher-Yates result for the given choices; it is a permutation of the input; input of length at most 1 comes back equal; the input itself is a value and stays unchanged |
| AutoGrouping.CeilDiv | components/AutoGrouping.tsx:33 | definition of `Math.ceil(n / k)` on whole numbers; properties in `CeilDivIsLeastCover` |
| AutoGrouping.Slice | components/AutoGrouping.tsx:42 | definition of `slice(start, end)` with both ends clamped to the length; used in `ChunksAt` and `BuildGroups` |
| AutoGrouping.Chunks | components/AutoGrouping.tsx:38-44 | definition of the reference partition into consecutive parts of size k; properties in `ChunksCount`, `ChunksAt`, `ChunksFlatten`, `ChunksSizes` and `ChunksPosition` |
| AutoGrouping.CeilDivIsLeastCover | components/AutoGrouping.tsx:33 | `ceil(n/k)` groups of size k cover n, one fewer does not, and it is 0 only for n = 0 |
| AutoGrouping.ChunksCount | components/AutoGrouping.tsx:33 | the reference partition has `ceil(n/k)` parts |
| AutoGrouping.ChunksAt | components/AutoGrouping.tsx:42 | part i is `slice(i*k, (i+1)*k)` of the shuffled list and starts inside it |
| AutoGrouping.ChunksFlatten | components/AutoGrouping.tsx:38-44 | concatenating the groups gives the shuffled list back |
| AutoGrouping.ChunksSizes | components/AutoGrouping.tsx:42 | every group but the last has exactly k members and every group has between 1 and k |
| AutoGrouping.ChunksPosition | components/AutoGrouping.tsx:42 | participant q of the shuffled list is in group `q/k` at offset `q%k` |
| AutoGrouping.ChunksPositionInverse | components/AutoGrouping.tsx:42 | member o of group g is participant `g*k+o`, so each participant is in exactly one group |
| AutoGrouping.SumSizesFlatten | components/AutoGrouping.tsx:38-44 | the sizes of parts add up to the length of their concatenation |
| AutoGrouping.ChunksSizesSum | components/AutoGrouping.tsx:38-44 | the group sizes add up to the number of participants |
| AutoGrouping.ChunksSingle | components/AutoGrouping.tsx:33 | with `k >= n` there is one group holding every participant |
| AutoGrouping.DecimalString | components/AutoGrouping.tsx:41 | the decimal form of a number has at least one digit |
| AutoGrouping.DecimalRoundTrip | components/AutoGrouping.tsx:41 | the decimal form reads back as the same number |
| AutoGrouping.FallbackName | components/AutoGrouping.tsx:41 | definition of the label `隊伍 {i + 1}`; properties in `FallbackNameNumber` and `FallbackNamesDistinct` |
| AutoGrouping.FallbackNameNumber | components/AutoGrouping.tsx:41 | the team number `i+1` can be read back from the fallback label |
| AutoGrouping.FallbackNamesDistinct | components/AutoGrouping.tsx:41 | different groups get different fallback labels |
| AutoGrouping.GroupName | components/AutoGrouping.tsx:41 | group i takes `names[i]` when that entry exists and is non-empty, otherwise `隊伍 i+1`; no group is left without a name |
| AutoGrouping.Members | types.ts:7-11 | the member lists of the groups, one per group, in order |
| AutoGrouping.BuildGroups | components/AutoGrouping.tsx:38-44 | the push loop builds `ceil(n/k)` groups, their members are the reference partition, and group i has id `groupIds[i]` and the name for i |
| AutoGrouping.GroupingState.constructor | components/AutoGrouping.tsx:11-12 | the panel starts with a group size of 3 and no groups |
| AutoGrouping.GroupingState.SetMembersPerGroup | components/AutoGrouping.tsx:74 | the size input sets the group size and leaves the groups as they are |
| AutoGrouping.GroupingState.HandleGroup | components/AutoGrouping.tsx:25-48 | nothing changes for a group size below 1 or no participants; otherwise the groups are the partition of the shuffle into `ceil(n/k)` slices, with ids and names as drawn |
| LuckyDraw.Unwon | components/LuckyDraw.tsx:20-21 | the filter keeps exactly the participants whose id is not among the winners, never lengthening the list |
| LuckyDraw.UnwonAppend | components/LuckyDraw.tsx:21 | the filter works piece by piece, so the pool keeps the participants' order |
| LuckyDraw.UnwonEmptyHistory | components/LuckyDraw.tsx:20-21 | with no winners everybody is in the pool |
| LuckyDraw.Pool | components/LuckyDraw.tsx:18-22 | with repeats allowed the pool is all participants; otherwise it is exactly those not yet won; it never holds anyone else |
| LuckyDraw.IdSetSize | components/LuckyDraw.tsx:20 | the set of winning ids is no larger than the history, and equal in size when the ids are distinct |
| LuckyDraw.HistoryBounded | components/LuckyDraw.tsx:45 | a history of distinct winners drawn from the participants is no longer than the participant list |
| LuckyDraw.PrependFresh | components/LuckyDraw.tsx:45 | prepending a winner whose id is new keeps the history's ids distinct |
| LuckyDraw.NoRepeatWinnerIsFresh | components/LuckyDraw.tsx:20-21 | with repeats off, whoever is drawn from the pool is a participant who has not won |
| LuckyDraw.Advance | components/LuckyDraw.tsx:35-36 | definition of the display index after n ticks of `(prev + 1) % len`; closed form in `AdvanceClosedForm` |
| LuckyDraw.AdvanceClosedForm | components/LuckyDraw.tsx:35 | after n >= 1 ticks of `(prev + 1) % len` the display index is `(d0 + n) % len` |
| LuckyDraw.StaleWinner | components/LuckyDraw.tsx:43 | the announced winner is the pool entry at the display index read when the draw started, and it is in the pool |
| LuckyDraw.IntendedWinner | components/LuckyDraw.tsx:72-74 | the entry in the last frame the slot paints is in the pool and sits at the index reached after `maxCount - 1` ticks, since the last tick lands together with the end of the spin |
| LuckyDraw.StaleWinnerDiffersFromLastFrame | components/LuckyDraw.tsx:43 | with two candidates, start index 0 and 30 ticks, the announced winner is not the one in the last frame |
| LuckyDraw.StaleWinnerAgreesWhen | components/LuckyDraw.tsx:35-43 | with distinct ids, the announced winner and the last frame agree exactly when `maxCount - 1` is a multiple of the pool size |
| LuckyDraw.DrawState.AvailableParticipants | components/LuckyDraw.tsx:18-22 | definition: the `useMemo` pool over the current fields; properties in `Pool` |
| LuckyDraw.DrawState.constructor | components/LuckyDraw.tsx:10-14 | not spinning, repeats off, no winner, empty history, index 0, no repeat draw yet; the pool is everybody |
| LuckyDraw.DrawState.ToggleRepeat | components/LuckyDraw.tsx:98 | the checkbox flips the repeat setting and nothing else |
| LuckyDraw.DrawState.StartDraw | components/LuckyDraw.tsx:24-51 | nothing changes while spinning or with an empty pool. Otherwise exactly `30 + extra` ticks run, in 30..49. The winner is the stale pool entry, prepended to the history, and spinning stops. The index ends at `(d0 + ticks) % \|pool\|`. Winners stay participants, and ids stay distinct while no draw since the last reset allowed repeats; whether a draw with repeats on happened since the reset is tracked exactly |
| LuckyDraw.DrawState.ResetHistory | components/LuckyDraw.tsx:53-56 | the history and winner are cleared; spinning, index and repeat setting stay; the pool is everybody again |
| LuckyDraw.NoRepeatHistoryBounded | components/LuckyDraw.tsx:45 | with no repeat draw since the last reset, the history is no longer than the participant list |

## Left out

- Randomness: `Math.random` picks the shuffle's swap indices and the extra ticks of a draw. Both are inputs here (`picks` with `0 <= picks[i] <= i`, and `extra < 20`). Nothing is claimed about their distribution.
- Random ids: `Math.random().toString(36)` produces the participant and group ids. Here they are supplied sequences, and only `StaleWinnerAgreesWhen` assumes anything about them: distinct ids in the pool. The history bound of `NoRepeatHistoryBounded` assumes nothing about the ids; the distinct history it rests on is kept by `StartDraw`.
- The team-name service is a network call to a text-generation API. Its reply is an arbitrary `names` sequence, which may be too short or too long and may hold empty strings. `services/geminiService.ts` is not part of this model.
- The theme picker and `isGenerating`: the `await` and the busy flag only guard re-entry while the service is working. `HandleGroup` runs to completion in one call.
- Timer pacing: the growing `speed` and `setTimeout` only space the ticks in time. The draw is a loop of `maxCount` ticks in one call, so a reset or toggle in the middle of a spin is not modelled.
- LuckyDraw.DrawState.StartDraw: the spinning display, where `isSpinning` is true and `winner` is `null` between the start of a draw and its last tick, is stated as a loop invariant inside the method and not in its postcondition.
- `LuckyDraw.DrawState.StartDraw` carries no precondition on the button's `disabled` attribute. The guard at the top of `startDraw` is modelled instead, and it covers the same two cases.
- LuckyDraw.DrawState: the participant list is a `const` field fixed when the panel is created (likewise `AutoGrouping.GroupingState`). In the source it is a prop, read again on every render (components/LuckyDraw.tsx:9, :22), while `winnersHistory` and `displayIndex` are kept. So on the late-upload path of the second finding, the winners may no longer be participants, and with fresh ids the history can be longer than the new list. `DrawState.Valid`'s "every winner is a participant" and `NoRepeatHistoryBounded` hold only for a list that stays fixed while the panel is shown.
- File reading: `FileReader`, and the missing-file early return, are I/O. `HandleFileUpload` starts from the file's text.
- The `useEffect` that refills an empty editor from the participant list, and all JSX, CSS and rendering.
- Text.Trim: uses the fixed ECMAScript whitespace and line-terminator set. It does not follow later Unicode versions.
- AutoGrouping.GroupingState.SetMembersPerGroup: takes the result of `parseInt` as a whole number. A `NaN` from a non-numeric field is not modelled. `NaN < 1` is false in JavaScript, so the guard would let `NaN` through.
- LuckyDraw.DrawState.StartDraw: states the tick count as `30 + extra` with `extra < 20`, so `maxCount` is 30 to 49.

## Findings

| source | as written | input that shows it | evidently intended | confidence | as-written member | corrected member |
|---|---|---|---|---|---|---|
| components/LuckyDraw.tsx:43 | `finalWinner` reads `displayIndex` from the closure created when the draw started. That is the index before any tick, while the last frame of the slot (:72-74) shows the index after `maxCount - 1` ticks of :35 | pool `[a, b]`, display index 0, `maxCount` 30: the last frame shows `b` but `a` is announced | announce the entry in the last frame, `pool[(d0 + maxCount - 1) % \|pool\|]` | not executed | LuckyDraw.StaleWinnerDiffersFromLastFrame | LuckyDraw.IntendedWinner |
| App.tsx:12-17 | the update keeps the active tab, and the draw and grouping buttons (:47, :60) check only the current list, so a file read finishing off the list tab (components/ListManager.tsx:34-38) can empty the list under the draw or grouping panel | a non-empty list, a file containing `",\n"` chosen, the draw tab clicked before the read finishes: the draw tab is active with no participants; a non-empty late file also replaces the list under a shown draw panel, whose history then may name non-participants | never show the draw or grouping panel with an empty list: fall back to the list tab when the list becomes empty | not executed | App.LateBlankUploadEmptiesDrawTab | App.AppState.UpdateParticipantsGuarded |

`LuckyDraw.DrawState.StartDraw` and `App.AppState.UpdateParticipants` keep the behaviour as written: the model follows the code.
