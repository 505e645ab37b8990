# Classroom media project: client-side progress model

This project models, in Dafny, the progress logic of the student/teacher web
client of a classroom media project (a podcast or video log). Student groups
work through five worksheet stages, `day1` … `day5`. Each stage is an open
map of answer fields plus a reserved `completed` flag. The client:

- validates the create-group form;
- derives the *active day*, the first stage whose `completed` is falsy;
- shows a `completed/5` badge per group;
- edits one field of one stage at a time;
- marks a stage complete once the server accepts it;
- removes a deleted group from the teacher's list and selection.

The model pulls these pieces out of the React components as pure functions
over immutable data:

- `Seqs`: the generic `filter` and `findIndex` the client uses, with their
  laws.
- `Text`: JavaScript's `String.prototype.trim` and the "blank" test the
  client builds from it. The character set is ECMAScript's WhiteSpace and
  LineTerminator code points.
- `Values`: JavaScript values stored in a stage and JavaScript truthiness.
  A missing field is `None` and a `null` field is `Null`; a missing or
  `null` stage is `None`.
- `Groups`: the `Group` record (a five-entry sequence of stage maps), the
  active day and the completed count.
- `Landing`: the create-group form (`createGroup`).
- `Project`: the project page (`fetchGroup`, `updateDay`, `markComplete`, the
  day tabs), plus an event model over sequences of user actions.
- `Teacher`: the teacher dashboard's local delete (`deleteGroup`).

Network requests, `window.confirm` and navigation are not modelled. Each
request's outcome is an input: a boolean, an `Option<Group>` or a
`PostResponse`.

A few facts about this client shape the model:

- Validation happens only in the client, before any request is sent. The
  bundled server (backend/server.py:24-27) checks only the request body's
  shape, and that shape requires a `project_type` field the client never
  sends.
- There are exactly five stages.
- The client never reads `project_type`.
- The active day is derived when the group loads. After a completion it is
  set to the next day, not recomputed.

## Model

| member | source | states |
|---|---|---|
| Text.Trim | frontend/src/App.js:32 | the trimmed string is a slice of the input with only whitespace cut from each end; it is empty exactly when every character is whitespace, and otherwise starts and ends with a non-whitespace character |
| Text.TrimIdempotent | frontend/src/App.js:36 | trimming an already trimmed string changes nothing |
| Seqs.Filter | frontend/src/App.js:36 | every kept element passes the callback, and each value occurs in the result as often as in the input if it passes, and not at all otherwise |
| Seqs.FilterAppend | frontend/src/App.js:620 | filtering keeps relative order: filtering a concatenation is the concatenation of the filtered parts |
| Seqs.FilterKeepsAll | frontend/src/App.js:620 | a sequence whose elements all pass is returned unchanged |
| Seqs.FilterFullIff | frontend/src/App.js:170 | nothing is dropped exactly when every element passes |
| Seqs.FilterEmptyIff | frontend/src/App.js:37 | the result is empty exactly when no element passes |
| Seqs.FilterIdempotent | frontend/src/App.js:36 | filtering a filtered sequence again changes nothing |
| Seqs.FilterKeepsPrefix | frontend/src/App.js:170 | when the first k elements pass, at least k elements survive |
| Seqs.FilterLengthCounts | frontend/src/App.js:170 | the length of the filtered sequence is the number of positions whose element passes |
| Seqs.FindIndex | frontend/src/App.js:218 | the result is -1 exactly when no element matches; otherwise it is a matching position with no match before it |
| Values.Truthy | frontend/src/App.js:170 | a stage value is truthy exactly when it is none of the empty string, `false`, `0` and `null` (JavaScript's ToBoolean, also applied at line 218) |
| Groups.CompletedOf | frontend/src/App.js:218 | `d?.completed` is present exactly when the stage exists and has the key, and is then that key's value |
| Groups.ActiveDay | frontend/src/App.js:216-219 | the active day is in 1..5, every earlier day is complete, the day itself is incomplete unless all five are complete, and it is 5 when all are complete |
| Groups.ActiveDayUnique | frontend/src/App.js:217-219 | those conditions single out one day, so any day meeting them is the active day |
| Groups.CompletedFlags | frontend/src/App.js:170 | the five `dayN?.completed` entries, each truthy exactly when its day is complete |
| Groups.CompletedCount | frontend/src/App.js:696 | the badge count is between 0 and 5 |
| Groups.CountIsCompletedDays | frontend/src/App.js:170 | the badge count equals the size of the set of complete days |
| Groups.FullCountIffAllComplete | frontend/src/App.js:184 | the badge reads 5/5 exactly when all five stages are complete |
| Groups.ActiveDayBelowCount | frontend/src/App.js:217-219 | the days before the active one are all counted, so the active day minus one never exceeds the count |
| Groups.SameProgress | frontend/src/App.js:217-219 | the active day and the count depend only on which stages are complete, not on other field contents |
| Landing.ValidMembers | frontend/src/App.js:36 | the kept member entries are non-blank, keep their multiplicity and are not trimmed, and none is kept exactly when all inputs are blank |
| Landing.NewGroupRequest | frontend/src/App.js:31-45 | the name error occurs exactly when the name is blank, whatever the members; the member error occurs exactly when the name is not blank and every member input is blank; otherwise the request carries the untrimmed name and the non-blank members, at least one |
| Landing.CreateGroup | frontend/src/App.js:31-49 | the project page opens exactly when the form is valid and the server created the group; a blank name or an all-blank member list shows its own message; a server failure shows its non-empty detail or the generic message |
| Landing.ValidMembersKeepsOrder | frontend/src/App.js:36 | member filtering keeps the order of the inputs |
| Landing.RequestRoundTrip | frontend/src/App.js:32-45 | a request, fed back into the form, validates to the same request |
| Project.FetchGroup | frontend/src/App.js:212-224 | a failed load goes back home; a successful load shows the fetched group on a day in 1..5 whose predecessors are all complete and which is incomplete unless every day is; it opens day 5 when every day is complete, which is exactly the derived active day |
| Project.Fields | frontend/src/App.js:230 | spreading a missing stage gives no fields, spreading a present one copies it, and the copy's `completed` entry is truthy exactly when the stage is complete (the same spread is used at line 253) |
| Project.WithStage | frontend/src/App.js:260-263 | installing a stage changes that stage only and keeps the group's id, name and members |
| Project.UpdateDay | frontend/src/App.js:226-235 | editing sets exactly one key of one stage: the stage gains only that key, all its other keys keep their values, and the other stages, the group header and the active day are unchanged |
| Project.CompletionPayload | frontend/src/App.js:253 | the request payload is the current stage with `completed` set to true and every other key kept |
| Project.MarkComplete | frontend/src/App.js:252-269 | a failed request changes nothing; a successful one installs the payload as that stage, leaves other stages and the header alone, marks the day complete, moves to day+1 below the last day and otherwise keeps the active day, and keeps the active day in 1..5 |
| Project.SelectDay | frontend/src/App.js:311 | clicking a day tab opens exactly the clicked day and keeps the group |
| Project.SelectDayMatchesLoad | frontend/src/App.js:311 | clicking the day a fresh load would pick gives the page that load shows, and no tab click changes the derived active day or the count |
| Project.MarkCompleteIsEdit | frontend/src/App.js:253 | completing a day gives the same group as editing its `completed` field to true |
| Project.EditKeepsProgress | frontend/src/App.js:226-235 | editing any field other than `completed` keeps every stage's completion, the derived active day and the count |
| Project.EditLastWins | frontend/src/App.js:226-235 | two edits of the same field leave only the last value |
| Project.EditsOnDifferentDaysCommute | frontend/src/App.js:226-235 | edits to two different days give the same page in either order |
| Project.MarkCompleteCount | frontend/src/App.js:252-264 | a successful completion adds exactly its day to the complete days; the count rises by one unless the day was already complete |
| Project.MarkCompleteMovesOn | frontend/src/App.js:253-264 | after a successful completion, a reload lands on the completed day only when it is day 5 and all days are complete |
| Project.MarkCompleteIdempotent | frontend/src/App.js:253-263 | completing the same day twice gives the same group as completing it once |
| Project.ApplyInvariants | frontend/src/App.js:226-269 | one page action keeps the active day in 1..5 and the group header, and never makes a complete stage incomplete |
| Project.RunInvariants | frontend/src/App.js:204-269 | any sequence of page actions keeps the active day in 1..5 and the group header, and completion only grows |
| Teacher.Without | frontend/src/App.js:620 | no remaining group has the deleted id, and every other group keeps its multiplicity |
| Teacher.DeleteGroup | frontend/src/App.js:616-625 | an unconfirmed or failed delete changes nothing; a successful one removes every entry with the id and clears the selection exactly when the selected group has that id |
| Teacher.WithoutKeepsOrder | frontend/src/App.js:620 | the remaining groups keep their relative order |
| Teacher.WithoutAbsentId | frontend/src/App.js:620 | deleting an id that no listed group has leaves the list unchanged |
| Teacher.DeleteTwice | frontend/src/App.js:619-621 | a second successful delete of the same id changes nothing more |

## Left out

- Rendering, CSS, icons and the per-day form layouts (frontend/src/App.js:56-196, 271-585, 627-809). These are presentation only.
- HTTP calls, `navigate`, `window.location`, `window.confirm`, `setTimeout` and `console.error`. Each request outcome and the confirm dialog are inputs.
- `saveDay` (frontend/src/App.js:237-250). It sends the current stage unchanged and only toggles the `saving`/`saved` indicators, which are presentation state.
- The `saving`/`saved` flags, the loading screen shown before a group arrives, and the list loads `fetchGroups` (frontend/src/App.js:22-29, 607-614), which only store the server's response.
- The teacher login (frontend/src/App.js:597-605). The client sets a flag on any successful response; the password check lives on a server that is not part of this model.
- `backend/server.py` and `backend/tests/test_grading_and_day1.py`. The server is a stub: it lists no groups and echoes the create request with a random id. The tests exercise endpoints whose implementation is not part of this model.
- Values: numbers are integers. Floating point, `NaN` and the contents of nested objects or arrays (`Obj`, always truthy) are not modelled.
- Project.UpdateDay: requires the day to be in 1..5. A day outside that range would add a new `dayN` key; every caller passes a literal 1..5 or the active day.
- Project.MarkComplete: requires the day to be in 1..5, as for `UpdateDay`; its only caller passes the active day.
- Project.SelectDay: requires the day to be in 1..5; the tabs offer exactly these days.
- Project.MarkComplete: assumes no edit lands between sending the request and its success. The code builds the payload from the group at call time and installs it over the latest state.
- Teacher.DeleteGroup: applies the delete to the dashboard it is given. The code filters the list and tests the selection as they were when the button was clicked (frontend/src/App.js:620-621), so overlapping deletes (which can bring back a group deleted earlier) and a selection changed while the request is in flight (which the response still clears) are not modelled.
- Landing.CreateGroup: models the server's failure detail only as an optional string. A non-string detail is not modelled.
