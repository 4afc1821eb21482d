# Task-list state engine of the Textify to-do app

This project models the in-memory state engine behind the two variants of the
to-do app. It does not model the React markup.

- The **extended variant** (`Script.jsx`) keeps an ordered list of task records.
  Each record has an id, a title, a text, a description, a completion flag,
  tags, a priority and points. The list is newest first.
  - A record is created from free text, through an extraction
    service whose JSON answer fills the fields. Fields that are missing or
    falsy get defaults.
  - Records are toggled, deleted and replaced by id.
  - An edit dialog works on a copy of one record, one field at a time. It
    shows the tags as comma-joined text and reads them back by splitting on
    commas and trimming each piece.
  - The achievements view lists the completed records and adds up their points.
- The **minimal variant** (`script.jsx`) keeps plain `{id, text, completed}`
  records. It can only add them (after a blank-input check) and toggle them.

Module layout:

- `jsstring.dfy`, module `JsString`: the JavaScript string operations the app
  uses, with their ECMAScript meaning.
  - `trim`, with the ECMAScript whitespace and line-terminator code points.
  - `split` on one character.
  - `Array.prototype.join`.
  - The decimal text of a number in a template literal.
- `tasks.dfy`, module `TaskModel`: the record and extraction datatypes, and the
  list transformations as pure functions. These are the bodies of `map`,
  `filter` and `reduce` in the handlers, the defaulting of a new record, and
  tag parsing. The lemmas about them live here too.
- `extended_app.dfy`, module `ExtendedApp`: class `TodoApp` holds the
  component's state (`tasks`, `nlpInput`, `taskBeingEdited`). Class
  `EditTaskDialog` holds the dialog's working copy. Each handler is a method
  that updates the fields through the pure functions.
- `minimal_app.dfy`, module `MinimalApp`: the minimal record, its toggle, and
  class `TodoApp` with `tasks` and `newTask`. It also proves that the two
  variants' toggles agree on the fields they share.

External values are inputs:

- The clock reading `Date.now()` is the parameter `now`.
- The extraction service's answer, after `JSON.parse`, is the parameter
  `response` of type `Extraction`. It is `Parsed(fields)` with optional fields,
  or `ParseError` for every outcome that adds no record. That covers
  `JSON.parse` throwing, and a `null` answer, whose `taskDetails.text` throws
  (`Script.jsx:284`) and is caught at `Script.jsx:294`. It also covers a
  rejected call to the service (`Script.jsx:277`, outside the `try`), which
  ends the handler before anything is set.
- The persisted list is a plain field that starts as `[]`.

JavaScript `||` is modelled as written. A missing string or `""` falls to the
default. A missing number or `0` gives `0`. Any array, even an empty one, is
kept.

Behaviour of the code that the model keeps as written:

- Priority is not validated: any non-empty string is kept, and only a
  missing or empty one becomes `medium` (`Script.jsx:288`).
- Points are not coerced: any non-zero value is kept, negative ones included
  (`Script.jsx:289`).
- Tags are trimmed only in the edit dialog (`Script.jsx:199`). Tags from the
  extraction are stored as given (`Script.jsx:287`).
- Ids are not unique: they come from the clock (`Script.jsx:282`), so two
  records can share one. Toggle, replace and delete act on every record with
  the id.

Tag-text round trip: parsing the text of a non-empty tag list gives the list
back, provided no tag holds a comma or surrounding whitespace. The empty tag
list is the exception. It shows as `""`, which parses to one empty tag
(`TaskModel.EmptyTagsReparse`).

## Model

| member | source | states |
|---|---|---|
| JsString.Trim | Script.jsx:274 | the result is the infix of the input left after removing the longest whitespace prefix and suffix; neither end of it is whitespace; it is empty exactly when the input is all whitespace |
| JsString.TrimIdempotent | script.jsx:98 | trimming twice is trimming once |
| JsString.Split | Script.jsx:199 | splitting on one character gives one more piece than there are separators; no piece contains the separator; joining the pieces with the separator gives the input back |
| JsString.Join | Script.jsx:197 | no parts join to ""; one part joins to itself; the first part is a prefix of the join (split inverts it, below) |
| JsString.SplitJoinWithSeparator | Script.jsx:197-199 | splitting the join of a non-empty list of separator-free pieces gives the pieces back; the pieces may be empty |
| JsString.Decimal | Script.jsx:283 | a number is rendered as at least one digit with no leading zero unless the number is 0 |
| JsString.DecimalRoundTrip | Script.jsx:283 | the rendered digits read back as the number |
| TaskModel.StringOr | Script.jsx:284-288 | `v || fallback` on strings: a present non-empty value is kept, a missing or empty one gives the fallback |
| TaskModel.StringOrTruthy | Script.jsx:284-288 | the result of `||` is non-empty exactly when the value or the fallback is |
| TaskModel.PointsOr | Script.jsx:289 | `v || 0` keeps every present number (the falsy 0 falls back to 0 itself) and gives 0 for a missing one |
| TaskModel.TagsOr | Script.jsx:287 | `v || []` keeps every present array, even an empty one, and gives [] for a missing one |
| TaskModel.PositionalTitle | Script.jsx:283 | the label starts with "Task " followed by at least one character |
| TaskModel.PositionalTitleReadsBack | Script.jsx:283 | the label is "Task " followed by digits that read back as the position |
| TaskModel.PositionalTitleInjective | Script.jsx:283 | different positions get different labels |
| TaskModel.NewTask | Script.jsx:281-290 | the new record has the supplied id, is not completed, and is titled by list length + 1; text, description, tags, priority and points are taken from the extraction when present and truthy, else "Untitled Task", "", [], "medium", 0; the text is never empty |
| TaskModel.DefaultingExample | Script.jsx:284-289 | extracting only a text into an empty list gives "Task 1" with empty description, no tags, priority "medium", 0 points, not completed |
| TaskModel.CreationOrder | Script.jsx:280-292 | after a run of creations the newest record is first, each record has the title of the position it was created at, and the original list follows unchanged |
| TaskModel.Toggled | Script.jsx:301-307 | length is kept; every record with the id has only its completion flipped; every other record is unchanged at its position |
| TaskModel.ToggledTwice | Script.jsx:303-305 | toggling the same id twice restores the list |
| TaskModel.ToggledMissing | Script.jsx:303-305 | toggling an id no record has leaves the list unchanged |
| TaskModel.Saved | Script.jsx:315-320 | length and positions are kept; every record with the edited id becomes the edited record; every other record is unchanged |
| TaskModel.SavedKeepsIds | Script.jsx:317-319 | after a save every position holds the same id as before |
| TaskModel.SavedMissing | Script.jsx:317-319 | saving a record whose id is absent leaves the list unchanged |
| TaskModel.SavedIdempotent | Script.jsx:317-319 | saving the same record twice is saving it once |
| TaskModel.Removed | Script.jsx:310-312 | the result is an order-preserving subsequence of the list; it holds exactly the records whose id differs; its length drops by the number of records with the id |
| TaskModel.RemovedMissing | Script.jsx:310-312 | deleting an id no record has leaves the list unchanged |
| TaskModel.RemovedIdempotent | Script.jsx:310-312 | deleting twice is deleting once |
| TaskModel.RemovedAfterToggled | Script.jsx:301-312 | toggling an id and then deleting it gives the same list as deleting it |
| TaskModel.CompletedTasks | Script.jsx:242-246 | the completed list is an order-preserving subsequence of the tasks, holds exactly the completed records, and is as long as the number of completed records, so a repeated record appears as often as it is stored |
| TaskModel.SumPoints | Script.jsx:232 | the left-to-right sum from 0 is not negative when no record has negative points (it equals the per-record sum of completed points on the filter, below) |
| TaskModel.TotalPoints | Script.jsx:231-234 | the total equals the sum, record by record, of the points of completed records (incomplete ones add nothing) |
| TaskModel.TotalPointsEarned | Script.jsx:232 | summing points left to right over the completed filter equals the record-by-record sum of completed points |
| TaskModel.NothingCompletedNoPoints | Script.jsx:232 | an empty or all-incomplete list has an empty completed list and total 0 |
| TaskModel.TotalPointsNonNegative | Script.jsx:232 | with no negative points the total is not negative |
| TaskModel.CreationKeepsTotal | Script.jsx:280-292 | prepending a newly created record leaves the total unchanged |
| TaskModel.AchievementExample | Script.jsx:232 | completed 5, incomplete 100, completed 3 total 8 |
| TaskModel.Changed | Script.jsx:165-167 | a field change sets only the named field; id, completion, points and all other fields are kept |
| TaskModel.ApplyChanges | Script.jsx:163-211 | any sequence of dialog edits keeps id, completion and points |
| TaskModel.EditThenSave | Script.jsx:315-321 | saving an edited copy of a stored record puts the copy at its position, keeps every id, and leaves records with other ids unchanged |
| TaskModel.TagsText | Script.jsx:197 | no tags show as ""; a single tag shows as itself (parsing inverts it, below) |
| TaskModel.ParseTags | Script.jsx:198-200 | the tag count is the comma count + 1; each tag is the trimmed piece at its position, so none holds a comma or surrounding whitespace; empty pieces are kept |
| TaskModel.TagsRoundTrip | Script.jsx:197-199 | parsing the comma-and-space join of a non-empty list of comma-free, trimmed tags gives the list back |
| TaskModel.EmptyTagsReparse | Script.jsx:197-199 | an empty tag list shows as "" and that text parses to one empty tag |
| ExtendedApp.TodoApp.constructor | Script.jsx:264-270 | the component starts with no tasks, empty input and no dialog open |
| ExtendedApp.TodoApp.SetNlpInput | Script.jsx:363 | typing sets only the input |
| ExtendedApp.TodoApp.ProcessNlpInput | Script.jsx:273-298 | on non-blank input with a parsed answer, one new record built from it is at index 0, the old list follows in order, length grows by 1 and the input is cleared; on blank input or a parse failure, tasks and input are unchanged; the dialog state is never touched |
| ExtendedApp.TodoApp.ToggleTask | Script.jsx:301-307 | the list becomes its toggle by id; input and dialog state are unchanged |
| ExtendedApp.TodoApp.DeleteTask | Script.jsx:310-312 | the list becomes its filter by id; input and dialog state are unchanged |
| ExtendedApp.TodoApp.StartEditing | Script.jsx:332 | the dialog opens on the given record; tasks and input are unchanged |
| ExtendedApp.TodoApp.CancelEditing | Script.jsx:415 | the dialog closes; tasks and input are unchanged |
| ExtendedApp.TodoApp.SaveEditedTask | Script.jsx:315-322 | the list becomes its replacement by the edited record's id and the dialog closes; the input is unchanged |
| ExtendedApp.EditTaskDialog.constructor | Script.jsx:163 | the working copy starts as the record the dialog was opened on |
| ExtendedApp.EditTaskDialog.HandleChange | Script.jsx:165-167 | the working copy becomes the copy with the one field changed |
| ExtendedApp.EditTaskDialog.TagsFieldText | Script.jsx:197 | the tags input shows "" for no tags; for a non-empty list of comma-free, trimmed tags, parsing the shown text gives the working copy's tags back |
| ExtendedApp.EditTaskDialog.ChangeTagsText | Script.jsx:198-200 | the working copy's tags become the parsed tag text, one per comma + 1; nothing else changes |
| MinimalApp.Toggled | script.jsx:106-112 | length is kept; every record with the id has its completion flipped; every other record is unchanged at its position |
| MinimalApp.ToggledTwice | script.jsx:107-110 | toggling the same id twice restores the list |
| MinimalApp.ToggledMissing | script.jsx:107-110 | toggling an absent id leaves the list unchanged |
| MinimalApp.ToggleAgreesWithExtended | script.jsx:106-112 | reducing extended records to id, text and completion commutes with toggling, so the minimal variant's toggle is the extended one's restricted to the shared fields |
| MinimalApp.TodoApp.constructor | script.jsx:90-92 | the component starts with no tasks and an empty input |
| MinimalApp.TodoApp.SetNewTask | script.jsx:145 | typing sets only the input |
| MinimalApp.TodoApp.AddTask | script.jsx:97-103 | on blank input nothing changes; otherwise the record with the clock id, the untrimmed input and completed false is at index 0, the old list follows in order, length grows by 1 and the input becomes "" |
| MinimalApp.TodoApp.ToggleTask | script.jsx:106-112 | the list becomes its toggle by id; the input is unchanged |

## Left out

- Rendering is not modelled because it is presentation only. This covers the
  navigation bar, task cards, dialogs, icons, tab switching, the content
  switch, and the priority colour map.
- The `Dialog` component's own plumbing is not modelled: `open={!!task}`,
  `onOpenChange` (`Script.jsx:170`) and the `DialogClose` wrappers
  (`Script.jsx:214-221`). Opening and closing themselves are modelled as
  `StartEditing`, `CancelEditing` and `SaveEditedTask`.
- Persistence through the `useKV` hook is foreign library code. The list is a
  plain field that starts empty.
- The prompt, the call to the extraction service and `JSON.parse` are external.
  Their combined outcome is the `Extraction` input.
- The `console.error` logging on a parse failure is output only, so it is left
  out.
- The async gap in `ProcessNlpInput` is not modelled. The handler builds the
  new list from the list it saw before awaiting the service. The model runs it
  as one synchronous step on the current state. User actions during the await
  are not modelled.
- `Date.now()` is not modelled. It is the parameter `now`.
- The Enter-key wiring, the `createRoot` bootstrap and the "User Manager" stub
  are left out as UI and bootstrap only.
- TaskModel.NewTask: field values of another JSON type are not modelled,
  because `TaskFields` types each field. Truthy values of another type are
  kept as-is by `||`: a non-zero number as `text`, a non-empty string as
  `points`, or a truthy non-array as `tags`. A kept string as `points` turns
  the sum at `Script.jsx:232` into string concatenation (`0 + "5"` is
  `"05"`). Falsy values of another type (`0`, `""`, `false`) fall to the
  default, as a missing field does. A `null` field is not modelled apart from
  a missing one.
- TaskModel.TotalPoints: points and ids are unbounded integers. JavaScript
  numbers are floating point, so sums past 2^53 would round.
- Fractional points are not modelled: points are whole numbers here. A
  fractional JSON number such as `2.5` is kept by `||` (`Script.jsx:289`) and
  summed in floating point with rounding (`Script.jsx:232`).
- JsString.Trim: Dafny characters stand for whole code points. JavaScript
  strings are UTF-16 code units, which differ for characters outside the
  Basic Multilingual Plane.
