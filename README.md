# emailSender recipient collection, in Dafny

The model covers the logic of the emailSender front end: how the send-email page
collects recipients, plus the small pure helpers around it.

- **Manual entry form** (`ManualEntry`, with `EmailValidator`, `PasteScanner` and `Recipients`).
  - Checking a typed address against `^[^\s@]+@[^\s@]+\.[^\s@]+$`.
  - Admitting it unless it is empty, malformed or already listed in any letter case.
  - Extracting addresses from pasted text with the global pattern `[\w.-]+@[\w.-]+\.\w+`.
  - Backspace and Enter handling, the per-chip remove button and "Clear all".
  - The form is a class holding `email`, `error`, `showError` and `recipients`. Two ghost logs record the arguments of every `onAdd` and `onRemove` call, in order.
- **Send-email page** (`SendEmail`): the method choice, appending a manual recipient without any check, the CSV result replacing the list, the `{ recipients, content }` request body, and the guards on the forms and the send button.
- **Theme slice** (`Theme`).
  - The three fields `darkMode`, `themeColor` and `animations`, with their reducers.
  - The browser state they touch, modelled as fields: the `localStorage` entries as a map, and the document's `dark` class as a flag.
  - The start-up parse of the stored `"true"`/`"false"` value.
- **Step indicator** (`StepIndicator`): the back button is shown iff `currentStep > 1` (`BackShown`), and each dot is classed as current, completed or upcoming.
- **Member searches** (`Teams`, `Small`): case-insensitive substring filters over member records, Teams' card/compact view toggle and member modal, and Small's generated members and hover tooltip.
- **Road map** (`RoadMap`): grid positions derived from the station index, the connector rule and the step label.
- **Dashboard** (`Dashboard`): the unread-notification badge, the colour classes of the statistic cards derived by `replace`, the first four recent members, and the simulated data load.

Shared modules:
- `Text`: JavaScript's `\s`, ASCII `toLowerCase`, `includes`, `indexOf`, first-occurrence `replace`, and decimal rendering.
- `Sequences`: `filter` and `slice(0, n)` with their laws.

Three modules use their own specification alongside the code:
- **`EmailValidator`** states what the regular expression means (`MatchesPattern`: a split into local part, `@`, domain head, `.`, tail). The executable check splits at the first `@` and is proved equal to it.
- **`PasteScanner`** states what one token matching the paste pattern looks like (`AddressShaped`). It models the search the regular-expression engine performs (`MatchAt`, `MatchesFrom`) and proves two things: every match is address-shaped, and every address-shaped token in the text starts inside some match. A shaped token can lie inside a longer match without being returned itself: `x@y.z@w.v` yields only `x@y.z`, and the shaped `z@w.v` starts inside it.
- **`ManualEntry`**: each handler is a method whose postcondition gives the whole new state in terms of specification functions (`Judge`, `PasteAdditions`, `RemoveAscending`). The lemmas beside it prove what those functions mean.

The code keeps no step state of its own beyond the step indicator's classification. Its CSV handling is the parser's result replacing the list wholesale (`SendEmail.SendEmailPage.HandleCsvComplete`). Its paste does not filter repeats within one paste; that is recorded under Findings.

## Model

| member | source | states |
|---|---|---|
| Text.ToLower | src/pages/SendEmail/components/ManualEntryForm.jsx:73 | the lower-cased text has the same length; each ASCII capital becomes its small letter and every other character is kept |
| Text.LowerChar | src/pages/SendEmail/components/ManualEntryForm.jsx:73 | an ASCII capital becomes the small letter at the same place in the alphabet; every other character is kept |
| Text.EmptyTermContained | src/pages/Teams.jsx:84-89 | every field, lower-cased, includes the lower-cased empty term |
| Text.Includes | src/pages/Teams.jsx:85-88 | `includes` finds a term no longer than the text, and always finds one the text starts with |
| Text.ContainsIgnoringCase | src/pages/Teams.jsx:85-88 | the lower-cased comparison never matches a term longer than the field, and always matches one the field starts with |
| Text.IndexOf | src/pages/Dashboard/Dashboard.jsx:222-224 | a found index is an occurrence with none before it; nothing is found exactly when the pattern is not included |
| Text.ReplaceFirstAt | src/pages/Dashboard/Dashboard.jsx:222-224 | `replace` with a string pattern swaps the first occurrence only, leaving the text before and after it unchanged |
| Text.ReplaceFirstAbsent | src/pages/Dashboard/Dashboard.jsx:222-224 | `replace` leaves a text without the pattern unchanged |
| Text.ReplaceFirst | src/pages/Dashboard/Dashboard.jsx:222-224 | when the pattern occurs, one copy of it gives way to the replacement: the length changes by their difference and the result includes the replacement |
| Text.NatToString | src/pages/Small.jsx:19-20 | the decimal text of a number is non-empty and all digits |
| Text.NatToStringInjective | src/pages/Small.jsx:20 | different numbers have different decimal texts |
| EmailValidator.ValidateEmail | src/pages/SendEmail/components/ManualEntryForm.jsx:57-60 | the validator accepts exactly the strings the regular expression matches: non-empty `[^\s@]` runs around one `@` and a `.` in the domain |
| EmailValidator.ValidatorShape | src/pages/SendEmail/components/ManualEntryForm.jsx:57-60 | accepted iff no whitespace, exactly one `@` with text before it, and a `.` in the domain with text on both sides (both directions) |
| EmailValidator.ValidatorExamples | src/pages/SendEmail/components/ManualEntryForm.jsx:57-60 | `a@b.com` passes; `a.com`, `a@b` and the empty string fail |
| PasteScanner.TokenRunEnd | src/pages/SendEmail/components/ManualEntryForm.jsx:95 | `[\w.-]+` consumes the maximal run of token characters from a position |
| PasteScanner.WordRunEnd | src/pages/SendEmail/components/ManualEntryForm.jsx:95 | `\w+` consumes the maximal run of word characters from a position |
| PasteScanner.LastDotBefore | src/pages/SendEmail/components/ManualEntryForm.jsx:95 | backtracking stops at the last `.` followed by a word character, or finds none |
| PasteScanner.MatchAt | src/pages/SendEmail/components/ManualEntryForm.jsx:95 | a match at a position ends after it and inside the text |
| PasteScanner.MatchAtSound | src/pages/SendEmail/components/ManualEntryForm.jsx:95 | what the engine matches at a position is address-shaped |
| PasteScanner.MatchAtComplete | src/pages/SendEmail/components/ManualEntryForm.jsx:95 | an address-shaped token at a position is matched there, by a match at least as long |
| PasteScanner.MatchesFrom | src/pages/SendEmail/components/ManualEntryForm.jsx:95 | the global search returns non-empty, non-overlapping matches, left to right, inside the text |
| PasteScanner.SpansAreMatches | src/pages/SendEmail/components/ManualEntryForm.jsx:95 | each span of the global search is the engine's match at its start |
| PasteScanner.NoAddressMissed | src/pages/SendEmail/components/ManualEntryForm.jsx:95 | every address-shaped token in the text starts inside one of the matches |
| PasteScanner.PasteTokens | src/pages/SendEmail/components/ManualEntryForm.jsx:95-96 | the returned strings are the texts of the matches, in order; `null` is the empty list |
| PasteScanner.TokensAreAddresses | src/pages/SendEmail/components/ManualEntryForm.jsx:95 | every extracted string is address-shaped |
| Sequences.Filter | src/pages/Teams.jsx:84-89 | the result is no longer than the input and holds only accepted elements |
| Sequences.FilterIsSubsequence | src/pages/Teams.jsx:84-89 | `filter` is an order-preserving subsequence of its input |
| Sequences.FilterCount | src/pages/Small.jsx:46-51 | an accepted value occurs as often as in the input; a rejected one does not occur |
| Sequences.FilterMembership | src/pages/Teams.jsx:84-89 | a value is kept iff it is in the input and accepted |
| Sequences.FilterIdempotent | src/pages/Teams.jsx:84-89 | filtering twice with the same predicate is filtering once |
| Sequences.FilterKeepsAll | src/pages/Teams.jsx:84-89 | a predicate accepting every element keeps the whole input |
| Sequences.FilterEmpty | src/pages/Dashboard/Dashboard.jsx:326 | the result is empty iff no element is accepted |
| Sequences.FilterKeepsKeysDistinct | src/pages/Small.jsx:148 | elements with pairwise distinct keys keep them distinct after filtering |
| Sequences.TakeIsPrefix | src/pages/Dashboard/Dashboard.jsx:408 | `slice(0, n)` is a prefix of length `min(n, length)` |
| Sequences.Take | src/pages/Dashboard/Dashboard.jsx:408 | `slice(0, n)`; `TakeIsPrefix` states that it is the prefix of length `min(n, length)` |
| Recipients.AsRecipients | src/pages/SendEmail/SendEmail.jsx:64 | the records `{ email }` of a list of addresses, one per address, in order |
| Recipients.AsRecipientsAppend | src/pages/SendEmail/components/ManualEntryForm.jsx:101 | mapping addresses to records distributes over concatenation |
| Recipients.IsListed | src/pages/SendEmail/components/ManualEntryForm.jsx:73 | the case-insensitive `some`: an exact copy in the list counts as listed, and an empty list lists nothing |
| Recipients.RemoveAt | src/pages/SendEmail/components/ManualEntryForm.jsx:426 | removing an existing position takes away exactly that one entry (as multisets); a position past the end changes nothing |
| Recipients.RemoveAtShifts | src/pages/SendEmail/components/ManualEntryForm.jsx:426 | removing position `i` drops exactly that entry, keeps those before and shifts those after down by one |
| Recipients.ListedAfterAppend | src/pages/SendEmail/components/ManualEntryForm.jsx:73 | after an append, an address is listed iff it was listed before or equals the appended one ignoring case |
| ManualEntry.Judge | src/pages/SendEmail/components/ManualEntryForm.jsx:62-78 | blank iff the input is empty; invalid iff non-empty and the regular expression does not match; a duplicate iff it matches and is listed; admissible iff it matches and is not listed |
| ManualEntry.SecondSubmitIsDuplicate | src/pages/SendEmail/components/ManualEntryForm.jsx:72-78 | once admitted, an address is refused as a duplicate when submitted again in any letter case |
| EmailValidator.ValidateIgnoresCase | src/pages/SendEmail/components/ManualEntryForm.jsx:57-60 | two addresses that agree after lower-casing are both accepted or both rejected |
| ManualEntry.AdmissionKeepsDistinct | src/pages/SendEmail/components/ManualEntryForm.jsx:62-85 | admitting through the submit checks keeps the list free of case-insensitive duplicates |
| ManualEntry.ShapedIsValid | src/pages/SendEmail/components/ManualEntryForm.jsx:57-95 | every token the paste pattern extracts also passes the validator |
| ManualEntry.PasteAdditions | src/pages/SendEmail/components/ManualEntryForm.jsx:97-100 | a paste adds at most as many addresses as it extracts, none of them already listed; into an empty list it adds every extracted token |
| ManualEntry.PasteAddsOnlyNewAddresses | src/pages/SendEmail/components/ManualEntryForm.jsx:95-101 | every address a paste adds is address-shaped, valid, and was not listed before the paste in any case |
| ManualEntry.PasteKeepsOrderAndRepeats | src/pages/SendEmail/components/ManualEntryForm.jsx:95-101 | a paste adds new addresses in order of appearance, each as often as it appears, and none already listed |
| ManualEntry.RepeatedTokens | src/pages/SendEmail/components/ManualEntryForm.jsx:95 | `a@b.co a@b.co` yields the address twice |
| ManualEntry.PasteRepeatsAddress | src/pages/SendEmail/components/ManualEntryForm.jsx:95-101 | pasting an address twice into an empty list adds it twice, breaking duplicate-freedom |
| ManualEntry.DistinctAdditions | src/pages/SendEmail/components/ManualEntryForm.jsx:231 | the corrected paste never adds more addresses than it extracts |
| ManualEntry.DistinctAdditionsAreNew | src/pages/SendEmail/components/ManualEntryForm.jsx:231 | every address the corrected paste adds is one of the extracted tokens and was not listed before the paste |
| ManualEntry.DistinctAdditionsKeepDistinct | src/pages/SendEmail/components/ManualEntryForm.jsx:231 | the corrected paste, which also skips repeats within the paste, keeps a duplicate-free list duplicate-free |
| ManualEntry.RemoveAscending | src/pages/SendEmail/components/ManualEntryForm.jsx:383 | a run of removals by position never lengthens the list |
| ManualEntry.OddPositions | src/pages/SendEmail/components/ManualEntryForm.jsx:383 | the entries at odd positions are half the list, rounded down |
| ManualEntry.OddPositionsAt | src/pages/SendEmail/components/ManualEntryForm.jsx:383 | the `i`-th of them is the entry that was at position `2i+1` |
| ManualEntry.ClearAllLeavesOddPositions | src/pages/SendEmail/components/ManualEntryForm.jsx:383 | removing positions `0 .. n-1` in ascending order leaves exactly the entries that were at odd positions |
| ManualEntry.ClearAllIncomplete | src/pages/SendEmail/components/ManualEntryForm.jsx:383 | with two or more recipients, "Clear all" leaves half of them, and at least one |
| ManualEntry.ManualEntryForm.constructor | src/pages/SendEmail/components/ManualEntryForm.jsx:52-55 | empty input, no error, hidden message, the parent's list |
| ManualEntry.ManualEntryForm.ErrorShown | src/pages/SendEmail/components/ManualEntryForm.jsx:189 | the message is on screen only while `error` is non-empty and `showError` is set; `OnChange` and `HandleEmailSubmit` state when that holds |
| ManualEntry.ManualEntryForm.SubmitEnabled | src/pages/SendEmail/components/ManualEntryForm.jsx:178 | the send arrow is enabled exactly when a submit would get past the blank check |
| ManualEntry.ManualEntryForm.OnAdd | src/pages/SendEmail/components/ManualEntryForm.jsx:80 | the parent's `onAdd` appends `{ email }` and logs the call |
| ManualEntry.ManualEntryForm.OnRemove | src/pages/SendEmail/components/ManualEntryForm.jsx:426 | the parent's `onRemove` removes by position and logs the call |
| ManualEntry.ManualEntryForm.OnChange | src/pages/SendEmail/components/ManualEntryForm.jsx:138-142 | typing sets the input and clears `error` and `showError`, so no message is shown and the send arrow is enabled iff the input is non-empty |
| ManualEntry.ManualEntryForm.HandleEmailSubmit | src/pages/SendEmail/components/ManualEntryForm.jsx:62-85 | empty input: nothing changes. Invalid address: the invalid message, list unchanged. Duplicate: the duplicate message, list unchanged. Otherwise: one `onAdd` of the typed address, and the input and error cleared iff `onAdd` reports success. The verdict is blank iff the send arrow was disabled; a refusal leaves its message on screen |
| ManualEntry.ManualEntryForm.HandlePaste | src/pages/SendEmail/components/ManualEntryForm.jsx:92-103 | `onAdd` is called once per extracted address not listed before the paste, in order, and the list grows by exactly those |
| ManualEntry.ManualEntryForm.HandlePasteDistinct | src/pages/SendEmail/components/ManualEntryForm.jsx:92-103 | the corrected paste adds the distinct new addresses in order and keeps a duplicate-free list duplicate-free |
| ManualEntry.ManualEntryForm.HandleKeyDown | src/pages/SendEmail/components/ManualEntryForm.jsx:105-112 | Backspace on an empty input with a non-empty list removes exactly the last index; otherwise Enter submits; any other key changes nothing |
| ManualEntry.ManualEntryForm.RemoveChip | src/pages/SendEmail/components/ManualEntryForm.jsx:426 | the chip's button removes its own entry and nothing else |
| ManualEntry.ManualEntryForm.ClearAll | src/pages/SendEmail/components/ManualEntryForm.jsx:383 | `onRemove(i)` is called once for each `i` in `0 .. n-1`, ascending, and leaves the entries at odd positions |
| ManualEntry.ManualEntryForm.ClearAllDescending | src/pages/SendEmail/components/ManualEntryForm.jsx:383 | removing from the last position down calls `onRemove(n-1) .. onRemove(0)` and empties the list |
| SendEmail.SendEmailPage.constructor | src/pages/SendEmail/SendEmail.jsx:13-15 | no method chosen, no recipients, no content |
| SendEmail.SendEmailPage.ManualFormShown | src/pages/SendEmail/SendEmail.jsx:208 | the manual form shows for the `"manual"` choice, and the upload form is then not on screen |
| SendEmail.SendEmailPage.CsvFormShown | src/pages/SendEmail/SendEmail.jsx:248 | the upload form shows for the `"csv"` choice; `HandleOptionSelect` states when |
| SendEmail.SendEmailPage.SendButtonShown | src/pages/SendEmail/SendEmail.jsx:296 | the send button shows when there is a recipient and some content; `SetEmailContent` and `HandleSendEmails` state what that means for the request |
| SendEmail.SendEmailPage.HandleOptionSelect | src/pages/SendEmail/SendEmail.jsx:44-46 | the chosen method is recorded and nothing else changes; the manual form shows iff it is `"manual"`, the CSV form iff `"csv"` |
| SendEmail.SendEmailPage.HandleManualAdd | src/pages/SendEmail/SendEmail.jsx:63-65 | `{ email }` is appended unchecked; earlier entries are kept |
| SendEmail.SendEmailPage.HandleCsvComplete | src/pages/SendEmail/SendEmail.jsx:53-55 | the parsed rows replace the list wholesale |
| SendEmail.SendEmailPage.TypeManual | src/pages/SendEmail/SendEmail.jsx:217-226 | the uncontrolled manual field holds what was typed |
| SendEmail.SendEmailPage.HandleManualKeyDown | src/pages/SendEmail/SendEmail.jsx:227-232 | Enter appends the typed value and then empties the field; other keys change nothing |
| SendEmail.SendEmailPage.SetEmailContent | src/pages/SendEmail/SendEmail.jsx:291 | the content is set; the send button then shows iff there is a recipient and the content is non-empty |
| SendEmail.SendEmailPage.HandleSendEmails | src/pages/SendEmail/SendEmail.jsx:67-72 | the request body is exactly the current list, in order, and the content |
| SendEmail.FormsExclusive | src/pages/SendEmail/SendEmail.jsx:208-248 | the manual and CSV forms are never both on screen |
| Theme.ReadTheme | src/feature/theme/theme.js:5-6 | reading the stored entry gives its value, nothing when there is none, or an error when storage throws |
| Theme.BoolToString | src/feature/theme/theme.js:34 | `String(b)` is `"true"` iff `b`, and `"false"` otherwise |
| Theme.GetInitialTheme | src/feature/theme/theme.js:4-19 | a stored value decides by `=== "true"`; without one the system preference decides; any exception gives light |
| Theme.StoredModeRoundTrip | src/feature/theme/theme.js:8-34 | the mode the toggle stores reads back as the same mode, whatever the system prefers |
| Theme.OnlyTrueIsDark | src/feature/theme/theme.js:10 | a stored value other than exactly `"true"` gives light |
| Theme.ThemeStore.constructor | src/feature/theme/theme.js:21-25 | the start-up mode from storage or system, colour `"blue"`, animations on |
| Theme.ThemeStore.ToggleTheme | src/feature/theme/theme.js:31-41 | the mode is negated and stored; the `dark` class matches it; a later start-up reads it back. A `setItem` that throws leaves the whole state unchanged |
| Theme.ThemeStore.SetThemeColor | src/feature/theme/theme.js:42-44 | only the colour changes, to the given one |
| Theme.ThemeStore.ToggleAnimations | src/feature/theme/theme.js:45-47 | only `animations` changes, negated |
| Theme.ThemeStore.ResetTheme | src/feature/theme/theme.js:49-61 | the mode takes the system preference, the stored entry is removed, the `dark` class matches it, and a later start-up follows the system again. A `removeItem` that throws leaves the whole state unchanged |
| StepIndicator.BackShownIffFirstCompleted | src/pages/SendEmail/components/StepIndicator.jsx:6-31 | the back button is shown iff the first dot is completed |
| StepIndicator.BackShown | src/pages/SendEmail/components/StepIndicator.jsx:6 | the back button shows exactly when the first dot is a completed step |
| StepIndicator.StatusAt | src/pages/SendEmail/components/StepIndicator.jsx:24-31 | a dot is current iff it is the current step, completed iff before it, upcoming iff after it |
| StepIndicator.Dots | src/pages/SendEmail/components/StepIndicator.jsx:20-31 | exactly `totalSteps` dots; dot `i` is current iff `i+1 == currentStep`, completed iff `i+1 < currentStep`, upcoming iff `i+1 > currentStep` |
| StepIndicator.DotsLayout | src/pages/SendEmail/components/StepIndicator.jsx:20-31 | in range, the dots read completed ones, one current, then upcoming ones; below range all upcoming, above all completed |
| StepIndicator.DotCounts | src/pages/SendEmail/components/StepIndicator.jsx:24-31 | in range, exactly one current, `currentStep-1` completed and the rest upcoming; out of range, none current |
| StepIndicator.DotsOrdered | src/pages/SendEmail/components/StepIndicator.jsx:24-31 | completed dots precede the current one, which precedes the upcoming ones |
| Teams.FilterMembersSpec | src/pages/Teams.jsx:84-89 | the shown members are an order-preserving subsequence holding a member iff it matches on name, role or department ignoring case, as often as listed |
| Teams.EmptySearchKeepsAll | src/pages/Teams.jsx:84-89 | an empty search shows every member |
| Teams.FilterMembersIdempotent | src/pages/Teams.jsx:84-89 | searching the result again for the same term changes nothing |
| Teams.Toggled | src/pages/Teams.jsx:115-117 | the toggle always changes the view |
| Teams.ToggleTwice | src/pages/Teams.jsx:115-117 | toggling twice restores the view |
| Teams.MatchesSearch | src/pages/Teams.jsx:85-88 | the empty term matches every member |
| Teams.FilterMembers | src/pages/Teams.jsx:84-89 | the shown members are never more than the list, and each of them matches the term |
| Teams.TeamsPage.constructor | src/pages/Teams.jsx:17-21 | no members, empty search, loading, no selection, card view |
| Teams.TeamsPage.FinishLoading | src/pages/Teams.jsx:71-74 | the members arrive and loading ends; with an empty search, all are shown |
| Teams.TeamsPage.Shown | src/pages/Teams.jsx:84-89 | the rendered `filteredMembers` are never more than the list, and are the whole list while the search is empty |
| Teams.TeamsPage.EmptyMessageShown | src/pages/Teams.jsx:231 | the empty-result message shows iff loading is over and no member matches the term |
| Teams.TeamsPage.ModalShown | src/pages/Teams.jsx:245 | the modal is rendered while a member is selected; `HandleCardClick` opens it and `CloseModal` closes it |
| Teams.TeamsPage.SetSearchTerm | src/pages/Teams.jsx:231 | the term is set; the empty-result message shows iff loading is over and no member matches |
| Teams.TeamsPage.HandleCardClick | src/pages/Teams.jsx:107-109 | the clicked member is selected and the modal is open |
| Teams.TeamsPage.CloseModal | src/pages/Teams.jsx:111-113 | the selection is cleared and the modal is closed |
| Teams.TeamsPage.ToggleViewMode | src/pages/Teams.jsx:115-117 | the view switches between card and compact; no element of the page calls this handler (both buttons call `setViewMode`), so the rendered page cannot reach it |
| Teams.TeamsPage.SetViewMode | src/pages/Teams.jsx:160-171 | the chosen view is set |
| Small.GenerateMembers | src/pages/Small.jsx:17-31 | 300 members; member `i` has id `i+1`, address `member{i+1}@example.com` and one of the five departments |
| Small.MemberEmail | src/pages/Small.jsx:20 | every generated address is accepted by the manual form's address validator |
| Small.MemberAt | src/pages/Small.jsx:17-31 | the `i`-th record has id `i+1`, an address the validator accepts, and one of the listed departments |
| Small.MemberAddressMatches | src/pages/Small.jsx:20 | `member<digits>@example.com` matches the address pattern, with its `@` after the digits |
| Small.AvatarUrl | src/pages/Small.jsx:21-23 | the `i`-th portrait is the men's picture for odd `i` and the women's for even `i`, numbered `i % 70 + 1`; `AvatarsRepeat` states what that implies |
| Small.AvatarsRepeat | src/pages/Small.jsx:21-23 | the portraits repeat every 70 members and differ within any 70; a member's gender and picture number have opposite parity, so the men get only even-numbered pictures and the women only odd-numbered ones |
| Small.AvatarPathInjective | src/pages/Small.jsx:21-23 | different genders or picture numbers give different portrait addresses |
| Small.MemberEmailInjective | src/pages/Small.jsx:20 | different member numbers give different addresses |
| Small.GeneratedMembersDistinct | src/pages/Small.jsx:17-20 | generated members have pairwise distinct ids and addresses |
| Small.FilterMembersSpec | src/pages/Small.jsx:46-51 | the shown members keep their order and are exactly those matching on name, email or department ignoring case, as often as listed |
| Small.EmptySearchKeepsAll | src/pages/Small.jsx:46-51 | an empty search shows every member |
| Small.MatchesSearch | src/pages/Small.jsx:48-50 | the empty term matches every member |
| Small.FilterMembers | src/pages/Small.jsx:46-51 | the shown members are never more than the list, and each of them matches the term |
| Small.AtMostOneTooltip | src/pages/Small.jsx:148 | among members with distinct ids, no two shown members have their tooltip open |
| Small.SmallPage.constructor | src/pages/Small.jsx:6-9 | no members, empty search, loading, nothing hovered |
| Small.SmallPage.ShownCount | src/pages/Small.jsx:79 | the heading's count is the number of shown members, at most the whole list |
| Small.SmallPage.Shown | src/pages/Small.jsx:46-51 | the rendered `filteredMembers` are never more than the list, and are the whole list while the search is empty |
| Small.SmallPage.TooltipShown | src/pages/Small.jsx:148 | a member's tooltip is open when its id is the hovered one; `MouseEnter` and `MouseLeave` state when |
| Small.SmallPage.EmptyMessageShown | src/pages/Small.jsx:164 | the empty-result message shows iff loading is over and no member matches the term |
| Small.SmallPage.Load | src/pages/Small.jsx:33-36 | the generated members arrive, loading ends, and their ids are distinct; the empty-result message then shows iff no member matches the term, so never for an empty term |
| Small.SmallPage.SetSearchTerm | src/pages/Small.jsx:93 | the term is set; the empty-result message shows iff loading is over and no member matches |
| Small.SmallPage.MouseEnter | src/pages/Small.jsx:124 | the tooltip is open exactly on the members with the hovered id |
| Small.SmallPage.MouseLeave | src/pages/Small.jsx:125 | no tooltip is open |
| RoadMap.UpdatedStations | src/pages/RoadMap/RoadMap.jsx:145-149 | same length and order, every station kept, with `x = 100 + (i % 3) * 400` and `y = 100 + floor(i / 3) * 200` |
| RoadMap.ColumnX | src/pages/RoadMap/RoadMap.jsx:147 | `x` is always 100, 500 or 900 |
| RoadMap.RowY | src/pages/RoadMap/RoadMap.jsx:148 | `y` is at least 100, and exactly 100 for the first three stations |
| RoadMap.RowsDescend | src/pages/RoadMap/RoadMap.jsx:148 | `y` never decreases with the index |
| RoadMap.PositionsDistinct | src/pages/RoadMap/RoadMap.jsx:147-148 | distinct indices have distinct positions |
| RoadMap.ConnectorRendered | src/pages/RoadMap/RoadMap.jsx:180 | every station with a successor gets a connector, and the last one does not |
| RoadMap.ConnectorVisible | src/pages/RoadMap/RoadMap.jsx:185 | no visible connector leaves the right-hand column |
| RoadMap.ConnectorStaysInRow | src/pages/RoadMap/RoadMap.jsx:180-185 | where a connector is visible, the next station's computed position is in the same row, one column to the right |
| RoadMap.StationIds | src/pages/RoadMap/RoadMap.jsx:21-142 | fifteen stations, numbered 1 to 15 in order |
| RoadMap.StepLabel | src/pages/RoadMap/RoadMap.jsx:241 | the badge starts with `Step ` and has room for exactly the two numbers and the `/` |
| RoadMap.StationsNumberedInOrder | src/pages/RoadMap/RoadMap.jsx:241 | each station's label reads `Step {i+1}/15` |
| Dashboard.UnreadCountIsCount | src/pages/Dashboard/Dashboard.jsx:326-328 | the badge number is the number of notifications not yet read |
| Dashboard.Unread | src/pages/Dashboard/Dashboard.jsx:326 | the filtered notifications are all unread, and never more than all |
| Dashboard.UnreadCount | src/pages/Dashboard/Dashboard.jsx:326-328 | the badge number is at most the number of notifications, and all of them when none has been read |
| Dashboard.BadgeShownIff | src/pages/Dashboard/Dashboard.jsx:326 | the badge shows iff some notification is unread |
| Dashboard.BadgeShown | src/pages/Dashboard/Dashboard.jsx:326 | `notifications.filter((n) => !n.read).length > 0`; `BadgeShownIff` states that it holds iff some notification is unread |
| Dashboard.MockBadge | src/pages/Dashboard/Dashboard.jsx:131-150 | the mock notifications put 2 on the badge |
| Dashboard.StatCardClasses | src/pages/Dashboard/Dashboard.jsx:222-224 | for `border-X-500`, with `X` made of letters, the icon gets `bg-X-100` and `text-X-500` |
| Dashboard.BgClass | src/pages/Dashboard/Dashboard.jsx:222-224 | a class with neither `border` nor `-500` in it is kept as it is |
| Dashboard.TextClass | src/pages/Dashboard/Dashboard.jsx:224 | a class holding `border` gets `text` in its place, two characters shorter; any other class is kept |
| Dashboard.StatCardColors | src/pages/Dashboard/Dashboard.jsx:361-384 | the four cards' icons get `bg-`/`text-` classes of blue, purple, green and amber |
| Dashboard.RecentShown | src/pages/Dashboard/Dashboard.jsx:408 | at most four recent members are shown, and they are the first ones, in order |
| Dashboard.GenerateRecentMembers | src/pages/Dashboard/Dashboard.jsx:47-68 | eight members; member `i` has id `i+1`, address `member{i+1}@example.com`, and one of the five roles and five departments |
| Dashboard.RecentMemberAt | src/pages/Dashboard/Dashboard.jsx:47-68 | the `i`-th record has id `i+1` and one of the five roles and five departments |
| Dashboard.DashboardPage.constructor | src/pages/Dashboard/Dashboard.jsx:16-26 | zero statistics, no members or notifications, loading |
| Dashboard.DashboardPage.FetchDashboardData | src/pages/Dashboard/Dashboard.jsx:32-187 | the mock statistics, the eight generated members and the notifications are set and loading ends; the badge shows 2, and the four members shown are those with ids 1 to 4 |

## Left out

- RoadMap.UpdatedStations: the computed `x` and `y` do not place anything on screen. The cards are laid out by a CSS grid of one, two or three columns, depending on the screen width. So the positions and `RoadMap.ConnectorStaysInRow` describe the computed numbers only, not where the cards appear.
- Text.ReplaceFirst: JavaScript's `replace` expands `$&`, `$1`, `$$` and similar sequences in the replacement string. The model copies the replacement literally. That makes no difference at the page's call sites, whose replacements (`bg`, `-100`, `text`) contain no `$`.
- The parent component that owns the manual form's list is not part of this model. `onAdd` is modelled as an append and `onRemove` as removal by position, applied at once. The value `onAdd` returns is an input of `HandleEmailSubmit` and `HandleKeyDown`.
- `handleSubmit` (ManualEntryForm.jsx:87-90) is `preventDefault` followed by `handleEmailSubmit`; only the latter is modelled.
- Timers are left out: the 3-second hiding of the error message, and the simulated delays in Teams, Small and Dashboard. Each load is modelled as the moment the delay ends.
- CSV parsing is left out, because it is done by the papaparse library. Only the wholesale replacement of the list by the parsed rows is modelled. Drag-and-drop forwarding is DOM plumbing.
- SendEmail.SendEmailPage.HandleCsvComplete: each parsed row is modelled as a record with only an `email` field. Papaparse in header mode returns objects keyed by the file's own header. A row may lack `email`, and the list then shows an empty item. Extra columns travel in the request body. Neither is modelled, so `HandleSendEmails`' body holds only the addresses.
- The `fetch` to `/api/send-email` is network I/O. Only its request body is modelled.
- `Math.random` and `Date` are not modelled. Random choices are inputs: Small's department picks and the dashboard members' role and department picks. Dates, statuses, skills and other display fields are dropped from the member records. Avatars are dropped too, except in Small, where `Small.AvatarUrl` builds each portrait address as the page does. Teams' mock members are an input of `Teams.TeamsPage.FinishLoading`.
- `localStorage`, `window.matchMedia` and the document class list are modelled as a map, a preference input and a flag.
  - A storage read that throws is modelled at start-up, and a `setItem` or `removeItem` that throws is the `writeFails` input of the two reducers.
  - A media query that throws is modelled only at start-up; `resetTheme` takes the preference as a plain boolean.
  - `console` messages are left out.
- `toLowerCase` covers ASCII letters only; Unicode case folding is not modelled. `\s` is the explicit set of JavaScript whitespace characters.
- Floating-point values are left out: the dashboard bar heights and the road map's scroll-progress spring.
- Dashboard's `activities`, `emailMetrics` and `scheduledEmails` are static display data, so they are not modelled.
- The purely presentational files are not part of this model: Card, Home, Header, TopBar, SideBar, Button, OptionCard, EmailComposer, App, PageTransition and the static option and navigation lists.

## Findings

| source | as written | input that shows it | evidently intended | confidence | as-written member | corrected member |
|---|---|---|---|---|---|---|
| src/pages/SendEmail/components/ManualEntryForm.jsx:383 | "Clear all" calls `onRemove(i)` for `i` ascending over the original indices, while each call shifts the remaining entries down | recipients `[a, b]`: `onRemove(0)` leaves `[b]`, then `onRemove(1)` removes nothing, so `[b]` remains | the button empties the list | not executed; assumes the parent removes by position at once | ManualEntry.ClearAllIncomplete | ManualEntry.ManualEntryForm.ClearAllDescending |
| src/pages/SendEmail/components/ManualEntryForm.jsx:95-101 | the paste filter compares tokens only against the list as it was before the paste, though the form says duplicates are filtered (line 231) | pasting `a@b.co a@b.co` into an empty list adds `a@b.co` twice | repeated addresses within one paste are added once | not executed | ManualEntry.PasteRepeatsAddress | ManualEntry.DistinctAdditionsKeepDistinct |
