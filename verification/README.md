# Kanban board task list — a Dafny model

This project models the data layer of a small browser kanban board
(`assets/js/script.js`). The board keeps one flat list of task records under a
single key of the browser's local store. Each task has an id, a name, a type,
a due date and a status. Every user action works the same way: load the whole
list, change it, save the whole list, then redraw three lanes from it:

- **submit the form:** append a new task with status `"to-do"`;
- **click delete:** run an index loop that splices out records with the clicked id;
- **drop a card on a lane:** set the status of every record with the dragged id to the lane's id.

The redraw puts each task in a lane according to its status. It also decides
whether the card is highlighted: due today (warning) or overdue (danger).

Modules follow the program's parts:

| module | file | what it holds |
|---|---|---|
| `Tasks` | tasks.dfy | `Task`, `Status` (with an `Other` fallback), `DueDate`, id uniqueness |
| `Storage` | storage.dfy | what the stored text parses to, loading with the empty-list fallback, saving |
| `Repository` | repository.dfy | add, the delete loop as written, set status by id |
| `Render` | render.dfy | lane partition, the redraw loop, card urgency and styling |
| `Controller` | controller.dfy | the three handlers, replay of action sequences, scenarios |

Modelling choices:

- **Status.** Statuses are strings in the source. Here they are a datatype with
  `ToDo`, `InProgress` and `Done`, plus `Other(text)` for any other string
  (for example the id of an unexpected drop target). The subset type `Status`
  keeps `Other` from spelling one of the three lane names. So two statuses are
  equal exactly when the source's strings would be.
- **Dates.** A due date is `NoDueDate` (the empty string), `Unreadable` (a
  string the date library turns into an invalid date) or `DueOn(day)`, with
  days as integers. "Today" is a parameter.
- **The task's `type` field** is called `kind`, because `type` is a Dafny keyword.
- **Delete is modelled as written.** `SpliceRemove` and the loop method
  `RemoveById` do what the source does. The loop advances its index even
  after splicing, so the record that moves into the freed slot is never
  examined. This is harmless while ids are unique. The model proves that the
  loop removes exactly the matching records if and only if no two matching
  records are neighbours.

Behaviour of the code that the model keeps as it is:

- **Loading.** `JSON.parse` throws on stored text that is not JSON. An absent
  key reads as `null`. Any stored value that parses to something falsy
  (`null`, `false`, `0`, `""`) falls back to `[]`. A stored array is returned
  as it is.
- **Delete.** The delete loop removes every match it examines, and it skips
  the record that follows each removal, as described above.
- **Set status.** The drop handler sets the status of every record with the
  dragged id, not only the first.
- **Status values.** The drop handler stores whatever id the target lane
  element has. Any status other than `"to-do"` and `"in-progress"` is drawn in
  the done lane.

## Model

| member | source | states |
|---|---|---|
| `Tasks.ParseStatus` | assets/js/script.js:182-187 | the lane id read as a status prints back as the same string; it is `ToDo` exactly for `"to-do"` and `Done` exactly for `"done"` |
| `Tasks.ParseLabelRoundTrip` | assets/js/script.js:93-95 | reading back the stored string of a status gives the same status |
| `Storage.Load` | assets/js/script.js:15-21 | an absent key or a stored value that parses to something falsy loads as the empty list; a stored list loads unchanged |
| `Storage.Save` | assets/js/script.js:24-26 | saving always stores a value, and loading it gives back exactly the saved list |
| `Storage.SaveLoadStable` | assets/js/script.js:15-26 | once a list is stored, loading and saving it again leaves the store unchanged |
| `Repository.Add` | assets/js/script.js:148-159 | the result is one record longer; its prefix is the old list; the last record has the given id, name, type and due date and status to-do; the id is present afterwards; a fresh id keeps ids unique |
| `Repository.SpliceRemoveKeepsOthers` | assets/js/script.js:127-131 | the delete loop's result keeps every record whose id differs from the target, in order, and is an order-preserving sub-list of the input |
| `Repository.RemoveById` | assets/js/script.js:127-131 | the index loop that splices without stepping back computes `SpliceRemove`: no non-matching record is dropped and survivors keep their order |
| `Repository.SpliceRemoveAbsent` | assets/js/script.js:127-131 | deleting an id that no record has leaves the list unchanged |
| `Repository.SpliceRemoveNoAdjacent` | assets/js/script.js:127-131 | when no two neighbouring records share the target id, the loop removes every matching record |
| `Repository.SpliceRemoveAdjacentLeavesMatch` | assets/js/script.js:127-131 | when two neighbouring records both have the target id, a record with that id survives the loop |
| `Repository.SpliceRemoveExactIff` | assets/js/script.js:127-131 | the loop removes exactly the matching records if and only if no two matching records are neighbours |
| `Repository.SpliceRemoveUnique` | assets/js/script.js:127-131 | with unique ids, the loop's result is exactly the list without the records that have the target id |
| `Repository.SpliceRemoveUniqueTakesOne` | assets/js/script.js:127-131 | with unique ids, no record with the target id remains, ids stay unique, and the length drops by one when the id was present |
| `Repository.AdjacentDuplicateSurvives` | assets/js/script.js:127-131 | for two neighbouring records with the same id, deleting that id leaves the second one |
| `Repository.AddThenRemove` | assets/js/script.js:148-159 | appending a record with a fresh id and then deleting that id gives back the original list |
| `Repository.SetStatus` | assets/js/script.js:184-189 | the length and order are kept; every record with the id gets the new status and keeps its other fields; every other record is unchanged |
| `Repository.SetStatusAbsent` | assets/js/script.js:184-189 | setting the status of an id that no record has leaves the list unchanged |
| `Repository.SetStatusKeepsIds` | assets/js/script.js:184-189 | setting a status keeps every record's id in place, so the set of ids and their uniqueness are preserved |
| `Repository.SetStatusIdempotent` | assets/js/script.js:184-189 | setting the same status twice gives the same list as setting it once |
| `Render.LaneOf` | assets/js/script.js:93-99 | a status is drawn in the to-do lane exactly when it is `"to-do"`, and in the in-progress lane exactly when it is `"in-progress"`; every other status is drawn in the done lane |
| `Render.DropTargetRoundTrip` | assets/js/script.js:182-187 | dropping a card on a lane gives it a status that is drawn in that same lane |
| `Render.PrintProjectData` | assets/js/script.js:77-100 | the redraw loop fills each lane with exactly the tasks of that lane, in list order, and the lane sizes add up to the list length |
| `Render.LanesPartition` | assets/js/script.js:91-100 | the three lanes together hold every task exactly once, with sizes and multisets adding up to the list |
| `Render.InLaneMembership` | assets/js/script.js:91-100 | a task appears in a lane exactly when it is in the list and its status belongs to that lane |
| `Render.ExactlyOneLane` | assets/js/script.js:91-100 | a task of the list is drawn in a given lane if and only if that lane is the lane of its status, so it is drawn in exactly one lane |
| `Render.InLaneKeepsOrder` | assets/js/script.js:91-100 | two tasks of the same lane appear in that lane in the order they have in the list |
| `Render.UrgencyOf` | assets/js/script.js:56-67 | no emphasis without a readable due date or when the status is done; otherwise warning exactly when the task is due today, danger exactly when it is overdue, and no emphasis for a future day |
| `Render.StyleOf` | assets/js/script.js:61-66 | the delete action gets the light border exactly when the task is not done and its due day is before today |
| `Render.LightBorderOnlyWhenOverdue` | assets/js/script.js:61-66 | the light border goes with danger emphasis and never with warning emphasis |
| `Controller.Submit` | assets/js/script.js:140-165 | the submit handler stores a list one record longer; its prefix is the list it loaded and its last record is the new task with the given id, name, type and due date and status to-do |
| `Controller.Delete` | assets/js/script.js:121-137 | the delete handler stores an order-preserving sub-list of the list it loaded, with the same non-matching records in the same order |
| `Controller.Drop` | assets/js/script.js:174-193 | the drop handler stores a list of the same length as the one it loaded; every record with the dragged id gets the target lane's id as its status, and every other record is unchanged |
| `Controller.DeleteAbsentNoOp` | assets/js/script.js:121-133 | deleting an unknown id stores the same list it loaded |
| `Controller.DropAbsentNoOp` | assets/js/script.js:174-191 | dropping a card with an unknown id stores the same list it loaded |
| `Controller.SubmitThenDelete` | assets/js/script.js:121-165 | submitting a task with a fresh id and then deleting it by that id leaves the stored list as it was before |
| `Controller.SubmitDeleteScenario` | assets/js/script.js:140-165 | starting from an empty store, submitting "Write report" gives a single to-do task in the to-do lane, and deleting it by its id stores the empty list |
| `Controller.DropLandsInLane` | assets/js/script.js:174-193 | after a drop on a lane, every task with the dropped id is drawn in that lane and in no other |
| `Controller.HandleAllMatchesApplyAll` | assets/js/script.js:121-193 | running any sequence of submit, delete and drop handlers against the store gives the list computed by replaying the same actions in memory |
| `Controller.ActionsKeepIdsUnique` | assets/js/script.js:121-193 | ids stay unique through any sequence of actions whose submitted ids are fresh when submitted |

## Left out

- Building the card DOM elements (tags, CSS class strings, text) is not modelled. Only the urgency and border decisions are.
- The draggable helper clone, its width, the droppable wiring and the date-picker setup are not modelled. They are visual effects of the jQuery UI library.
- `localStorage` access and JSON (de)serialisation are not modelled. The stored value is what its text parses to: `Unset` for an absent key or a falsy value, `Holds` for a task list. Three kinds of stored text are outside the model:
  - text that is not valid JSON, on which `JSON.parse` throws;
  - valid JSON that is truthy but not an array;
  - an array whose elements are not task records.
- `crypto.randomUUID()` is not modelled. The new id is a parameter, and where uniqueness matters its freshness is assumed.
- Date parsing is not modelled. This covers the `DD/MM/YYYY` layout, `isSame` and `isAfter` at timestamp level, and the current time. A due date is a day number or `Unreadable`, and today is a parameter. Because the day is taken at its start, "now is after the due date" on a day other than today means the due day is before today.
- The clock display and its one-second timer are not modelled. They do not touch tasks.
- Reading and clearing the form fields and registering event handlers are not modelled. Both are DOM I/O.
- The `console.log` of the clicked id in the delete handler (`assets/js/script.js:123`) is not modelled. It is debugging output with no effect on the list.
- Repository.Add: has no freshness precondition, because the source demands none of its callers. Id uniqueness after an add is stated under the assumption that the id is fresh.
