# Timetable creator: the scheduling engine

The timetable creator keeps a school's weekly grid: for every class, every
teaching day maps to a row of `periods_per_day` cells. Each cell is either
empty or a session written `"Subject (Teacher)"`. Allocations say which
subjects a class takes, from which teacher, and for how many periods a week.

This project models the engine in `public/js/app.js` and proves properties of
that model. The engine has five parts:

- **Grid initialisation.** It builds an all-empty grid for every allocated
  class and every setup day.
- **Requirements.** The first phase of auto-fill. For every (teacher,
  subject) pair it works out how many sessions each class still needs.
- **Task building.** The second phase. It splits those needs greedily into
  atomic tasks. A task is one session held in several classes at once.
- **The randomised greedy solver.** The third phase. It makes up to 100
  attempts. Each attempt works on a copy of the grid and places the shuffled
  tasks, each at the first slot of its own shuffled slot list where the
  teacher is free and every class of the task has an empty cell. The first
  attempt that places every task is committed. When all attempts fail, the
  grid is left as it was.
- **The collision check.** It reports every cell whose subject differs from
  that of the first cell seen for its teacher, day and period.
- **The manual edit of one cell.** Clearing a cell always succeeds. A session
  is refused once its subject has already used up the periods of the class's
  allocation.

Modules, in dependency order:

- `Timetable` (timetable.dfy): labels, grids, slots and tasks.
- `Dicts` (dicts.dfy): insertion-ordered dictionaries, which stand for the
  source's plain JavaScript objects.
- `GridInit` (grid_init.dfy).
- `Requirements` (requirements.dfy).
- `TaskBuilder` (task_builder.dfy).
- `Solver` (solver.dfy).
- `Collisions` (collisions.dfy).
- `ManualEdit` (manual_edit.dfy).
- `AutoFill` (autofill.dfy): the three phases put together.

A label is the datatype `Empty | Session(subject, teacher)` rather than a
string. A `"Teacher|Subject"` key is the pair `Key(teacher, subject)`.

The source throws a `TypeError` when it reads a grid row that does not exist.
The model turns this into an explicit `Fault` or `None` result, and the grid
is left unchanged in that case.

`Math.random` is replaced by inputs:

- Auto-fill receives 100 `Shuffle` values, one per attempt.
- Each shuffle holds a task order and, for each task, a slot order.
- `ValidShuffle` requires the task order to be a permutation of the pending
  tasks, and every slot order to be a permutation of all (day, period) slots.

## Model

| member | source | states |
|---|---|---|
| GridInit.EmptyRow | public/js/app.js:79 | a fresh row has exactly `periods_per_day` cells, all empty |
| GridInit.EmptyWeek | public/js/app.js:78-80 | a fresh class week has exactly the setup days as keys, each mapped to an empty row |
| GridInit.InitGridStructure | public/js/app.js:72-81 | the grid's classes are exactly the allocations' class names; each class has exactly the setup days, each an all-empty row of `periods_per_day` cells; so every row auto-fill later reads exists |
| Timetable.Write | public/js/app.js:164 | storing one cell changes that cell and no other, and keeps the grid's classes, days and row lengths |
| Timetable.AllSlots | public/js/app.js:357-360 | the slot list holds exactly the (setup day, period below `periods_per_day`) pairs |
| Requirements.Entries | public/js/app.js:298-299 | every visited (class, subject entry) pair comes from one allocation and one of its subject entries |
| Requirements.EntriesComplete | public/js/app.js:298-299 | every subject entry of every allocation is visited, paired with that allocation's class name |
| Requirements.CountLabel | public/js/app.js:306-307 | the count of cells equal to a label never exceeds the row length, and is zero exactly when the label is absent |
| Requirements.CountInClass | public/js/app.js:304-309 | a class's count of a label over the setup days is zero exactly when no existing row of the class on a setup day holds the label |
| Requirements.NeedOfSpec | public/js/app.js:303-310 | an entry's need never exceeds its periods, and equals them exactly when no counted row of its class holds exactly its `"subject (teacher)"` label |
| Requirements.RequirementTable | public/js/app.js:298-312 | the requirement table has distinct keys, and each key's class list has distinct classes |
| Requirements.RequirementsKeys | public/js/app.js:300-301 | a key is in the table exactly when some visited (class, subject entry) pair has that teacher and subject |
| Requirements.RequirementsDefined | public/js/app.js:301-310 | `reqs[key][c]` is defined exactly when some visited pair of class `c` has that key |
| Requirements.AllocationKeys | public/js/app.js:298-301 | a key is in the table exactly when some subject entry of some allocation has that teacher and subject |
| Requirements.AllocationNeeds | public/js/app.js:298-310 | `reqs[key][c]` is defined exactly when some allocation with class name `c` has a subject entry with that key |
| Requirements.RequirementsNeed | public/js/app.js:303-310 | `reqs[key][c]` is the periods of the last entry of class `c` with that key, minus the number of that class's cells over the setup days that equal exactly `"subject (teacher)"` |
| TaskBuilder.Above | public/js/app.js:322-323 | a round's participants are exactly the classes of the key whose remaining need is above the floor |
| TaskBuilder.RoundCount | public/js/app.js:318-320 | the number of rounds is at least every class's need, and when positive it equals the need of some class |
| TaskBuilder.Decrement | public/js/app.js:323 | a round decrements exactly the positive needs and keeps the class list |
| TaskBuilder.RoundsKey | public/js/app.js:320-326 | every task the rounds emit has the key's teacher and subject and at least one class |
| TaskBuilder.RoundsClosedForm | public/js/app.js:320-326 | the `i`-th round emits the task whose classes are those with need above `i` |
| TaskBuilder.RoundsOccurrences | public/js/app.js:320-326 | over `n` rounds a class takes part min(n, max(0, need)) times |
| TaskBuilder.TasksForKeySpec | public/js/app.js:315-327 | a key emits exactly max(0, maxNeeded) tasks, all of that key and none empty; task `i` holds exactly the classes with need above `i`; each later task's classes are among the earlier one's; each class takes part in exactly max(0, need) tasks |
| TaskBuilder.TasksForKey | public/js/app.js:316-327 | every task of one key has that key's teacher and subject and at least one class |
| TaskBuilder.TasksOfKeys | public/js/app.js:315-327 | every task emitted for a list of keys belongs to a key of the list that is in the table, and has at least one class |
| TaskBuilder.BuildTasks | public/js/app.js:315-327 | every task of the list belongs to a key of the requirement table and has at least one class |
| TaskBuilder.BuildTasksPerKey | public/js/app.js:315-327 | within the whole task list, the tasks of one key are exactly that key's block, and a key not in the table has none |
| TaskBuilder.BuildTasksEmpty | public/js/app.js:315-329 | the task list is empty exactly when no class has a positive need for any key |
| Solver.BusyOf | public/js/app.js:338-350 | the busy map holds (teacher, day, period) exactly when some class's cell holds a session of that teacher there |
| Solver.FirstFeasible | public/js/app.js:363-370 | a chosen slot is in the slot list, the teacher is not busy there, and every class of the task has an existing empty cell there |
| Solver.FirstFeasibleSpec | public/js/app.js:363-383 | no slot is chosen exactly when no slot of the list is feasible; otherwise the choice is the earliest feasible slot |
| Solver.Place | public/js/app.js:372-373 | placing writes the label into exactly the task's classes at the slot; every other cell and the grid's shape are unchanged |
| Solver.CommitSpec | public/js/app.js:372-377 | placing a task writes its label into exactly its classes at the slot, marks exactly its teacher busy there, records the slot, and keeps the grid's shape |
| Solver.Run | public/js/app.js:355-384 | a running attempt has chosen exactly one slot per task so far, and its busy map still holds every initial mark |
| Solver.Attempt | public/js/app.js:334-384 | a successful attempt chooses one slot per task and keeps every busy mark of the grid; an attempt fails exactly when some task, reached with all earlier tasks placed, has no feasible slot in its list |
| Solver.RunStaysFailed | public/js/app.js:383 | once a task cannot be placed, the attempt stays failed |
| Solver.RunFails | public/js/app.js:355-384 | an attempt fails exactly when some task, reached with all earlier tasks placed, has no feasible slot in its list |
| Solver.RunShape | public/js/app.js:355-381 | a successful run keeps the grid's shape, and gives every task one slot taken from its own slot list |
| Solver.RunKeeps | public/js/app.js:368-373 | a cell that was not empty at the start is never overwritten |
| Solver.RunBusy | public/js/app.js:338-377 | the busy map is the initial one plus one (teacher, slot) mark per placed task |
| Solver.RunWrites | public/js/app.js:372-373 | every placed task's label sits in all its classes at its slot, and a cell that is empty afterwards was empty before |
| Solver.RunChanges | public/js/app.js:368-373 | every changed cell was empty before and now holds the label of a placed task of that class at that slot |
| Solver.RunTeachers | public/js/app.js:365-377 | no task goes where its teacher was busy in the grid, and no two tasks of one teacher share a slot |
| Solver.RunClasses | public/js/app.js:368-369 | every task's classes were empty at its slot in the original grid, and no two tasks sharing a class share a slot |
| Solver.CommitNoClash | public/js/app.js:363-377 | placing a feasible task into a clash-free grid whose sessions are all marked busy keeps it clash-free and keeps every session marked |
| Solver.RunNoClash | public/js/app.js:355-384 | a successful attempt on a clash-free grid gives a clash-free grid |
| Solver.FindSlot | public/js/app.js:363-381 | the slot loop picks what `FirstFeasible` picks |
| Solver.RunAttempt | public/js/app.js:334-384 | one attempt's loop over the tasks computes the functional attempt on a fresh copy and a busy map built from it |
| Solver.Solve | public/js/app.js:332-394 | the first attempt below 100 that places every task is returned with its grid; when no attempt succeeds, nothing is returned |
| Collisions.RowCells | public/js/app.js:268-272 | a row's scanned cells are exactly its non-empty cells, with their class, day, period, subject and teacher |
| Collisions.ClassCells | public/js/app.js:266-268 | a class's scan fails exactly when one of its setup-day rows is missing; otherwise it lists exactly the class's sessions on the setup days |
| Collisions.Scan | public/js/app.js:265-268 | the whole scan fails exactly when some class lacks a setup-day row; otherwise it lists exactly the grid's sessions on the setup days |
| Collisions.Reported | public/js/app.js:274-284 | at most one collision per scanned cell, and every reported collision pairs two different subjects |
| Collisions.FirstOfSpec | public/js/app.js:274-284 | the remembered entry for a (teacher, day, period) is the earliest scanned cell with it, and there is none exactly when no cell has it |
| Collisions.ReportedEmptyAt | public/js/app.js:277-282 | no collision is reported exactly when no scanned cell differs in subject from the first cell with its key |
| Collisions.NoCollisionsIff | public/js/app.js:277-285 | no collision is reported exactly when any two scanned cells with the same teacher, day and period have the same subject |
| Collisions.ReportedSound | public/js/app.js:277-282 | each reported collision names an earlier and a later cell with the same teacher, day and period and different subjects |
| Collisions.Detect | public/js/app.js:265-288 | the loop with the first-seen `schedule` map reports exactly the reference list of collisions |
| Collisions.ScanNoClash | public/js/app.js:261-288 | over a complete scan, pairwise subject agreement is the same as the grid having no clash on the setup days |
| Collisions.CheckCollisions | public/js/app.js:261-291 | the check fails exactly when a class lacks a setup-day row; otherwise its report is exactly the first-seen list `Reported` of the scan (each session whose subject differs from the first session seen for its teacher, day and period, in scan order), and it is empty exactly when no teacher has two subjects at one slot of a setup day |
| ManualEdit.FindAllocation | public/js/app.js:175 | the first allocation with the class name, or none exactly when there is no such allocation |
| ManualEdit.FindSubject | public/js/app.js:176 | the first subject entry with the name, or none exactly when there is no such entry |
| ManualEdit.RowCount | public/js/app.js:186-190 | the count of a subject's sessions never exceeds the row length |
| ManualEdit.SubjectCount | public/js/app.js:183-191 | counting fails exactly when a setup-day row of the class is missing |
| ManualEdit.UpdateCell | public/js/app.js:158-207 | clearing an existing cell always succeeds and changes only that cell; a session is stored exactly in that one cell when the class's first allocation has an entry for the subject and the subject's count is below that entry's periods; a count at the limit is refused with that limit; an unknown subject is ignored; a missing allocation or row faults; the grid is unchanged whenever nothing is stored |
| ManualEdit.RowCountWrite | public/js/app.js:204 | overwriting one cell changes a row's count by what the old cell gave and the new one gives |
| ManualEdit.SubjectCountWrite | public/js/app.js:183-204 | with distinct days, writing one cell changes the class's count of a subject by the old and new cells' contributions when its day is counted, and not otherwise |
| ManualEdit.WriteRespectsCap | public/js/app.js:180-204 | with distinct days, an accepted session never takes its subject's count in that class above the entry's periods |
| ManualEdit.ClearNeverRaises | public/js/app.js:163-191 | clearing a cell never raises any subject's count, even over a day list that repeats a day |
| ManualEdit.ClearCount | public/js/app.js:183-191 | over any list of days, repeated or not, emptying one existing cell keeps every counted row present and lowers no subject count |
| ManualEdit.ExactWithinSubject | public/js/app.js:306-307 | auto-fill's exact `"subject (teacher)"` count never exceeds the edit cap's subject-only count, and falls short of it whenever the row holds the subject under another teacher |
| AutoFill.PendingTasks | public/js/app.js:298-327 | every pending task has at least one class, and its teacher and subject come from a subject entry of some allocation |
| AutoFill.AttemptSound | public/js/app.js:334-387 | a successful attempt with a valid shuffle places every task once, at a slot of the week, where its classes were empty and its teacher free; it changes only those cells, double-books no teacher or class, and keeps a clash-free grid clash-free |
| AutoFill.AutoFill | public/js/app.js:293-395 | auto-fill faults exactly when a counted row is missing; reports a full schedule exactly when no task is pending; commits the first attempt that succeeds, whose task order is a permutation of the pending tasks and whose grid is sound; reports failure exactly when all 100 attempts fail; leaves the grid unchanged unless it commits |
| AutoFill.ShapedAttempt | public/js/app.js:298-384 | on a grid holding every allocated class's rows for every setup day, every row the requirement pass reads exists, so auto-fill does not fault, and a successful attempt's grid still holds all those rows |
| AutoFill.InTasksWithKey | public/js/app.js:315-327 | a task of the list is among the tasks of its own (teacher, subject) key |
| AutoFill.TaskOfKey | public/js/app.js:315-327 | every pending task belongs to a key of the requirement table and is one of that key's rounds |
| AutoFill.ClassOfRound | public/js/app.js:322-325 | a class of a round is one of the key's classes with a need |
| AutoFill.NeedHasAllocation | public/js/app.js:298-310 | a class with a need is an allocated class with at least one subject |
| AutoFill.PendingClassesHaveRows | public/js/app.js:298-369 | when the counted rows exist, every class of a pending task has a row for every setup day, so the solver never reads a missing row |

## Left out

- Label strings are not modelled. `"Subject (Teacher)"` is the datatype
  `Session(subject, teacher)`, and parsing it with `split('(')` is not
  modelled. Teacher or subject names containing `(`, `)` or `|`, and the
  throw on a non-empty label without `(`, are outside the model.
- Teacher or subject names with leading or trailing whitespace are outside
  the model too. The source trims the names it parses back out of a label,
  but not the allocation's names, and the model compares names unchanged.
  Consequences:
  - The busy map files an existing session of teacher `"Smith "` under the
    trimmed `"Smith"`, while tasks look up the untrimmed `"Smith "`. The
    source can then place a task where its teacher already teaches and
    commit a clash. The model marks that slot busy, so `AutoFill.AttemptSound`
    promises no double-booking there, where the source does double-book.
  - `updateCell` trims the subject it parses from the new label. For an
    allocation subject `" Math"` the lookup then fails and the source stores
    nothing, while `ManualEdit.UpdateCell` finds the entry and may store it.
  - The collision check trims both names, so it can report such a clash.
- For names without surrounding whitespace, the subject parse in
  `updateCell` and the `startsWith(subject + " (")` test come down to
  equality of structured subjects, and that is how they are modelled.
- The `"Teacher|Subject"` key string and its `split('|')` are modelled as a
  pair.
- JavaScript orders integer-like object keys before the others, which can
  change the order of task participants and of the collision scan. Insertion
  order is modelled instead. The grid's key order is a parameter of
  `Collisions.CheckCollisions`.
- Teacher names that are `Object.prototype` property names (`constructor`,
  `toString`, `__proto__`) are not modelled. There, `schedule[teacher]` and
  `busy[teacher]` read an inherited value, for example the global `Object`,
  and writes through it persist from one check to the next. The model's
  `TeacherSlot` keys are plain values with no inherited entries.
- `updateCell` with a period at or past the row's end: reading the old
  value gives `undefined` without throwing. The source then extends the
  array on the two paths that store a value, a clear and an accepted write.
  On the other paths it ignores an unknown subject or refuses a count at the
  limit, as it would in range. The model reports `Fault` and leaves the grid
  unchanged on all of these paths. A missing allocation or a missing row,
  where the source throws, is also reported as `Fault`.
- Non-numeric or `NaN` `periods` values are not modelled; periods are
  integers. `periods_per_day` is a natural number, so `new Array` cannot
  fail.
- `Math.random` shuffles are inputs (`Shuffle`, `ValidShuffle`); no
  distribution is modelled.
- The task list is shuffled in place, so the orders add up from one attempt
  to the next. The model lets each attempt use any permutation, which covers
  every order that accumulation can produce.
- `JSON.parse(JSON.stringify(...))` is modelled by immutable values: an
  attempt starts from the grid itself, and a failed attempt leaves no trace.
- I/O is not part of this model:
  - `saveData`, `render`, `renderProgress`, `showStatus`, `alert`, and the
    message texts, including the `Pd p+1` and `Attempt n` formatting;
  - the reverting of the dropdown;
  - `async`/`await` and the save after commit.
  
  The collision messages are structured `Collision` values instead of
  strings.
- `renderStaffView`, `resetGrid`, the other rendering and theme helpers,
  `public/js/view.js` and `server.js` are not part of this model; they are
  display and persistence.
- ManualEdit.WriteRespectsCap: assumes the setup days are distinct. A
  repeated day is counted twice by the source's loop and the cap is then
  stated over that double count.
- ManualEdit.SubjectCountWrite: assumes the setup days are distinct. A day
  listed `m` times is counted `m` times, so one write then changes the count
  by `m` times the cell's contribution; that multiple is not stated.
- GridInit.InitGridStructure: a missing setup (the server's default data
  has `setup: null`) is outside the model; the source throws at once when
  it destructures it. A setup without `days` throws as soon as there is an
  allocation, and otherwise yields an empty grid. The model's `Setup` always
  has a day list and a period count.
- Collisions.CheckCollisions: a missing setup or `days` list is outside
  the model for the same reason; the source throws there as soon as the
  grid has a class, and reports nothing for an empty grid.
- AutoFill.AutoFill: a missing setup or `days` list is outside the model
  for the same reason; the source throws there as soon as some allocation
  has a subject entry, and otherwise reports a full schedule.
- AutoFill.AutoFill: does not promise that the committed grid contains
  exactly the missing periods of each class. It promises that every task of
  a permutation of the pending tasks is placed once, soundly, and that
  `TaskBuilder.TasksForKeySpec` gives each class exactly max(0, need) tasks
  of each key.
