/** Auto-fill as a whole: requirements, task list, solver, and what is
    committed to the grid. */
module AutoFill {
  import opened Timetable
  import opened Dicts
  import opened Requirements
  import opened TaskBuilder
  import opened Solver

  datatype FillOutcome =
    | Fault              // reading a missing row throws while counting; nothing changes
    | NothingToSchedule  // "Schedule is already full!"
    | Filled(attempt: nat)
    | Exhausted          // "Could not auto-fill without conflicts."

  datatype Fill = Fill(outcome: FillOutcome, grid: Grid)

  /** The task list auto-fill hands to the solver. */
  function PendingTasks(setup: Setup, allocs: seq<Allocation>, g: Grid): (r: seq<Task>)
    ensures forall i :: 0 <= i < |r| ==> |r[i].classes| > 0 && TaughtBySome(allocs, Key(r[i].teacher, r[i].subject))
  {
    var r := BuildTasks(RequirementsOf(setup, allocs, g));
    assert forall i :: 0 <= i < |r| ==> TaughtBySome(allocs, Key(r[i].teacher, r[i].subject)) by {
      forall i | 0 <= i < |r| ensures TaughtBySome(allocs, Key(r[i].teacher, r[i].subject)) {
        AllocationKeys(setup, allocs, g, Key(r[i].teacher, r[i].subject));
      }
    }
    r
  }

  /** Some subject entry of some allocation has teacher and subject `key`. */
  predicate TaughtBySome(allocs: seq<Allocation>, key: Key) {
    exists i, j :: 0 <= i < |allocs| && 0 <= j < |allocs[i].subjects| && KeyOf(allocs[i].subjects[j]) == key
  }

  /** What a successful attempt guarantees about the grid it commits, for
      the tasks in the attempt's order. */
  ghost predicate SoundFill(setup: Setup, g: Grid, order: seq<Task>, st: State) {
    && |st.slots| == |order|
    && SameShape(g, st.grid)
    && (forall k :: 0 <= k < |order| ==> st.slots[k].day in setup.days && st.slots[k].period < setup.periodsPerDay)
    && WritesInv(g, order, st)
    && KeepsInv(g, st)
    && ChangesInv(g, order, st)
    && TeacherInv(BusyOf(g), order, st)
    && ClassInv(g, order, st)
  }

  /** A successful attempt with a valid shuffle places every task at a slot of
      the week, at most once per teacher and per class at each slot, where
      the teacher taught nothing and its classes' cells were empty; it
      changes nothing else, and it introduces no teacher clash. */
  lemma {:induction false} AttemptSound(setup: Setup, tasks: seq<Task>, g: Grid, sh: Shuffle)
    requires ValidShuffle(setup, tasks, sh)
    requires Attempt(g, sh).Some?
    ensures SoundFill(setup, g, sh.order, Attempt(g, sh).value)
    ensures NoClash(g) ==> NoClash(Attempt(g, sh).value.grid)
  {
    var n := |sh.order|;
    var busy := BusyOf(g);
    var st := Attempt(g, sh).value;
    RunShape(g, busy, sh.order, sh.slotOrders, n);
    RunWrites(g, busy, sh.order, sh.slotOrders, n);
    RunKeeps(g, busy, sh.order, sh.slotOrders, n);
    RunChanges(g, busy, sh.order, sh.slotOrders, n);
    RunTeachers(g, busy, sh.order, sh.slotOrders, n);
    RunClasses(g, busy, sh.order, sh.slotOrders, n);
    forall k | 0 <= k < n ensures st.slots[k].day in setup.days && st.slots[k].period < setup.periodsPerDay {
      assert st.slots[k] in multiset(sh.slotOrders[k]);
    }
    if NoClash(g) {
      RunNoClash(g, busy, sh.order, sh.slotOrders, n);
    }
  }

  /** On a grid holding every allocated class's rows (as `initGridStructure`
      builds it), the requirement pass finds every row it reads, so auto-fill
      does not fault, and a successful attempt leaves all those rows in place. */
  lemma ShapedAttempt(setup: Setup, allocs: seq<Allocation>, g: Grid, sh: Shuffle)
    requires Shaped(setup, allocs, g) && WellSized(sh)
    ensures RowsPresent(setup, allocs, g)
    ensures Attempt(g, sh).Some? ==> Shaped(setup, allocs, Attempt(g, sh).value.grid)
  {
    ShapedRowsPresent(setup, allocs, g);
    if Attempt(g, sh).Some? {
      RunShape(g, BusyOf(g), sh.order, sh.slotOrders, |sh.order|);
      SameShapeKeepsShaped(setup, allocs, g, Attempt(g, sh).value.grid);
    }
  }

  /** `autoFill()`. The requirement pass throws exactly when a class with
      subjects lacks a row for a setup day; an empty task list is reported
      as a full schedule; otherwise the first of the 100 attempts that places
      every task is committed, and when none does the grid is left as it
      was. `shuffles` stands for the random orders of the 100 attempts. */
  method AutoFill(setup: Setup, allocs: seq<Allocation>, g: Grid, shuffles: seq<Shuffle>) returns (r: Fill)
    requires |shuffles| == MaxAttempts
    requires forall a :: 0 <= a < |shuffles| ==> WellSized(shuffles[a])
    requires forall a :: 0 <= a < |shuffles| ==> ValidShuffle(setup, PendingTasks(setup, allocs, g), shuffles[a])
    ensures r.outcome.Fault? <==> !RowsPresent(setup, allocs, g)
    ensures !r.outcome.Filled? ==> r.grid == g
    ensures r.outcome.NothingToSchedule? <==> RowsPresent(setup, allocs, g) && PendingTasks(setup, allocs, g) == []
    ensures r.outcome.Exhausted? <==>
      && RowsPresent(setup, allocs, g) && PendingTasks(setup, allocs, g) != []
      && forall a :: 0 <= a < MaxAttempts ==> Attempt(g, shuffles[a]).None?
    ensures r.outcome.Filled? ==>
      && RowsPresent(setup, allocs, g) && PendingTasks(setup, allocs, g) != []
      && r.outcome.attempt < MaxAttempts
      && (forall a :: 0 <= a < r.outcome.attempt ==> Attempt(g, shuffles[a]).None?)
      && Attempt(g, shuffles[r.outcome.attempt]).Some?
      && r.grid == Attempt(g, shuffles[r.outcome.attempt]).value.grid
      && multiset(shuffles[r.outcome.attempt].order) == multiset(PendingTasks(setup, allocs, g))
      && SoundFill(setup, g, shuffles[r.outcome.attempt].order, Attempt(g, shuffles[r.outcome.attempt]).value)
      && (NoClash(g) ==> NoClash(r.grid))
  {
    if !RowsPresent(setup, allocs, g) {
      return Fill(Fault, g);
    }
    var table := RequirementsOf(setup, allocs, g);
    var tasks := BuildTasks(table);
    if tasks == [] {
      return Fill(NothingToSchedule, g);
    }
    var res := Solve(g, shuffles);
    if res.Exhausted? {
      return Fill(FillOutcome.Exhausted, g);
    }
    AttemptSound(setup, tasks, g, shuffles[res.attempt]);
    return Fill(Filled(res.attempt), res.grid);
  }

  /** A task of `tasks` is among the tasks of its own key. */
  lemma {:induction false} InTasksWithKey(tasks: seq<Task>, t: Task)
    requires t in tasks
    ensures t in TasksWithKey(tasks, Key(t.teacher, t.subject))
    decreases |tasks|
  {
    if tasks[0] != t {
      InTasksWithKey(tasks[1..], t);
    }
  }

  /** A task of the task list belongs to a key of the table and is one of that key's rounds. */
  lemma {:induction false} TaskOfKey(table: ReqTable, t: Task)
    requires WellFormedTable(table) && t in BuildTasks(table)
    ensures Key(t.teacher, t.subject) in table.values
    ensures t in TasksForKey(Key(t.teacher, t.subject), table.values[Key(t.teacher, t.subject)])
  {
    InTasksWithKey(BuildTasks(table), t);
    BuildTasksPerKey(table, Key(t.teacher, t.subject));
  }

  /** A class of one of a key's rounds is a class of that key's needs. */
  lemma {:induction false} ClassOfRound(key: Key, rem: Needs, t: Task, c: ClassName)
    requires t in TasksForKey(key, rem) && c in t.classes
    ensures c in rem.values
  {
    var n := RoundCount(rem.order, rem.values);
    RoundsClosedForm(key.teacher, key.subject, rem, n);
    var r := RoundTasks(key.teacher, key.subject, rem.order, rem.values, n);
    var i :| 0 <= i < |r| && r[i] == t;
    assert c in Above(rem.order, rem.values, i);
  }

  /** A class with a need in the requirement table is an allocated class with subjects. */
  lemma {:induction false} NeedHasAllocation(setup: Setup, allocs: seq<Allocation>, g: Grid, key: Key, c: ClassName)
    requires Need(RequirementsOf(setup, allocs, g), key, c).Some?
    ensures exists a :: 0 <= a < |allocs| && allocs[a].className == c && |allocs[a].subjects| > 0
  {
    var entries := Entries(allocs);
    RequirementsDefined(setup, g, entries, key, c);
    var k :| 0 <= k < |entries| && Matches(entries[k], key, c);
    var a :| 0 <= a < |allocs| && entries[k].className == allocs[a].className && entries[k].sub in allocs[a].subjects;
  }

  /** Every class of a pending task is a class with subjects in the
      allocations; so when the rows are present, the solver's reads of
      `tempGrid[c][d][p]` for the setup days never hit a missing row. */
  lemma {:induction false} PendingClassesHaveRows(setup: Setup, allocs: seq<Allocation>, g: Grid, t: Task, c: ClassName, d: Day)
    requires RowsPresent(setup, allocs, g)
    requires t in PendingTasks(setup, allocs, g) && c in t.classes && d in setup.days
    ensures c in g && d in g[c]
  {
    var table := RequirementsOf(setup, allocs, g);
    var key := Key(t.teacher, t.subject);
    TaskOfKey(table, t);
    ClassOfRound(key, table.values[key], t, c);
    NeedHasAllocation(setup, allocs, g, key, c);
  }
}
