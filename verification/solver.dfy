/** The third phase of auto-fill: the randomized greedy solver. Each attempt
    takes the tasks in a shuffled order and puts each one at the first slot of
    its own shuffled slot list where its teacher is free and every one of its
    classes has an empty cell. The shuffles are inputs of the model. */
module Solver {
  import opened Timetable

  const MaxAttempts: nat := 100

  /** Class `c` has a session of `m.teacher` at `m.slot`. */
  predicate Teaches(g: Grid, c: ClassName, m: TeacherSlot) {
    CellAt(g, c, m.slot).Some? && CellAt(g, c, m.slot).value.Session? && CellAt(g, c, m.slot).value.teacher == m.teacher
  }

  /** The busy map built from a grid: every (teacher, day, period) that some
      class's non-empty cell names, over every day and period the grid holds. */
  function BusyOf(g: Grid): (r: set<TeacherSlot>)
    ensures forall m :: m in r <==> exists c :: Teaches(g, c, m)
  {
    var r := set c, d, p | c in g && d in g[c] && 0 <= p < |g[c][d]| && g[c][d][p].Session? :: TeacherSlot(g[c][d][p].teacher, Slot(d, p));
    assert forall m :: m in r ==> exists c :: Teaches(g, c, m) by {
      forall m | m in r ensures exists c :: Teaches(g, c, m) {
        var c, d, p :| c in g && d in g[c] && 0 <= p < |g[c][d]| && g[c][d][p].Session? && m == TeacherSlot(g[c][d][p].teacher, Slot(d, p));
        assert Teaches(g, c, m);
      }
    }
    assert forall c, m :: Teaches(g, c, m) ==> m in r by {
      forall c, m | Teaches(g, c, m) ensures m in r {
        var d, p := m.slot.day, m.slot.period;
        assert TeacherSlot(g[c][d][p].teacher, Slot(d, p)) == m;
      }
    }
    r
  }

  /** Task `t` may go at slot `s`: its teacher is not busy there and every one
      of its classes has an empty cell there. */
  predicate Feasible(g: Grid, busy: set<TeacherSlot>, t: Task, s: Slot) {
    && TeacherSlot(t.teacher, s) !in busy
    && forall c :: c in t.classes ==> CellAt(g, c, s) == Some(Empty)
  }

  /** The first slot of `slots` where `t` is feasible, if any. */
  function FirstFeasible(g: Grid, busy: set<TeacherSlot>, t: Task, slots: seq<Slot>): (r: Option<Slot>)
    ensures r.Some? ==> r.value in slots && Feasible(g, busy, t, r.value)
    decreases |slots|
  {
    if slots == [] then None
    else if Feasible(g, busy, t, slots[0]) then Some(slots[0])
    else FirstFeasible(g, busy, t, slots[1..])
  }

  /** `FirstFeasible` finds nothing exactly when no slot of the list is
      feasible, and otherwise the earliest feasible slot of the list. */
  lemma {:induction false} FirstFeasibleSpec(g: Grid, busy: set<TeacherSlot>, t: Task, slots: seq<Slot>)
    ensures FirstFeasible(g, busy, t, slots).None? <==> forall k :: 0 <= k < |slots| ==> !Feasible(g, busy, t, slots[k])
    ensures FirstFeasible(g, busy, t, slots).Some? ==>
      exists k :: 0 <= k < |slots| && slots[k] == FirstFeasible(g, busy, t, slots).value &&
        forall j :: 0 <= j < k ==> !Feasible(g, busy, t, slots[j])
    decreases |slots|
  {
    if slots != [] && !Feasible(g, busy, t, slots[0]) {
      var rest := slots[1..];
      FirstFeasibleSpec(g, busy, t, rest);
      assert forall k :: 1 <= k < |slots| ==> slots[k] == rest[k - 1];
      if FirstFeasible(g, busy, t, rest).Some? {
        var k :| 0 <= k < |rest| && rest[k] == FirstFeasible(g, busy, t, rest).value &&
          forall j :: 0 <= j < k ==> !Feasible(g, busy, t, rest[j]);
        assert slots[k + 1] == rest[k];
      }
    } else if slots != [] {
      assert slots[0] == FirstFeasible(g, busy, t, slots).value;
    }
  }

  /** Writes label `l` into the cell of every class of `classes` at slot `s`. */
  function Place(g: Grid, classes: seq<ClassName>, s: Slot, l: Label): (r: Grid)
    requires forall c :: c in classes ==> CellAt(g, c, s).Some?
    ensures SameShape(g, r)
    ensures forall c, s' :: CellAt(r, c, s') == if c in classes && s' == s then Some(l) else CellAt(g, c, s')
    decreases |classes|
  {
    if classes == [] then g
    else
      var r := Place(Write(g, classes[0], s, l), classes[1..], s, l);
      assert forall c :: c in classes <==> c == classes[0] || c in classes[1..];
      r
  }

  /** The grid, the busy map and the slots chosen so far in one attempt. */
  datatype State = State(grid: Grid, busy: set<TeacherSlot>, slots: seq<Slot>)

  /** Places task `t` at slot `s`: its label into all its classes, its teacher marked busy. */
  function Commit(st: State, t: Task, s: Slot): State
    requires Feasible(st.grid, st.busy, t, s)
  {
    State(Place(st.grid, t.classes, s, LabelOf(t)), st.busy + {TeacherSlot(t.teacher, s)}, st.slots + [s])
  }

  /** Committing writes the task's label into exactly its classes at the
      slot, marks exactly its teacher busy there, and records the slot. */
  lemma CommitSpec(st: State, t: Task, s: Slot)
    requires Feasible(st.grid, st.busy, t, s)
    ensures var r := Commit(st, t, s);
      && SameShape(st.grid, r.grid)
      && (forall c, s' :: CellAt(r.grid, c, s') == if c in t.classes && s' == s then Some(LabelOf(t)) else CellAt(st.grid, c, s'))
      && (forall m :: m in r.busy <==> m in st.busy || m == TeacherSlot(t.teacher, s))
      && |r.slots| == |st.slots| + 1 && r.slots[..|st.slots|] == st.slots && r.slots[|st.slots|] == s
  {
  }

  /** The state of an attempt after its first `k` tasks, or `None` when one
      of them found no feasible slot (the attempt fails there). */
  function Run(g: Grid, busy: set<TeacherSlot>, order: seq<Task>, slotOrders: seq<seq<Slot>>, k: nat): (r: Option<State>)
    requires k <= |order| == |slotOrders|
    ensures r.Some? ==> |r.value.slots| == k && busy <= r.value.busy
    decreases k
  {
    if k == 0 then Some(State(g, busy, []))
    else
      match Run(g, busy, order, slotOrders, k - 1)
      case None => None
      case Some(st) =>
        match FirstFeasible(st.grid, st.busy, order[k - 1], slotOrders[k - 1])
        case None => None
        case Some(s) => Some(Commit(st, order[k - 1], s))
  }

  /** One shuffle: an order of the tasks and, for each task in that order, an order of the slots. */
  datatype Shuffle = Shuffle(order: seq<Task>, slotOrders: seq<seq<Slot>>)

  predicate WellSized(sh: Shuffle) {
    |sh.order| == |sh.slotOrders|
  }

  /** One attempt on a fresh copy of `g` with the busy map built from it. */
  function Attempt(g: Grid, sh: Shuffle): (r: Option<State>)
    requires WellSized(sh)
    ensures r.Some? ==> |r.value.slots| == |sh.order| && BusyOf(g) <= r.value.busy
    ensures r.None? <==> exists k :: 0 <= k < |sh.order| && StuckAt(g, BusyOf(g), sh.order, sh.slotOrders, k)
  {
    RunFails(g, BusyOf(g), sh.order, sh.slotOrders, |sh.order|);
    Run(g, BusyOf(g), sh.order, sh.slotOrders, |sh.order|)
  }

  /** The source's `slots.sort(() => Math.random() - 0.5)` and
      `tasks.sort(...)` yield some permutation; a shuffle is valid when it
      is a permutation of the tasks and each slot list one of all the slots. */
  predicate ValidShuffle(setup: Setup, tasks: seq<Task>, sh: Shuffle) {
    && WellSized(sh)
    && multiset(sh.order) == multiset(tasks)
    && forall k :: 0 <= k < |sh.slotOrders| ==> multiset(sh.slotOrders[k]) == multiset(AllSlots(setup))
  }

  // ---------------------------------------------------------------------
  // What an attempt guarantees

  /** Once a task has no feasible slot the attempt stays failed. */
  lemma {:induction false} RunStaysFailed(g: Grid, busy: set<TeacherSlot>, order: seq<Task>, slotOrders: seq<seq<Slot>>, k: nat, n: nat)
    requires k <= n <= |order| == |slotOrders|
    requires Run(g, busy, order, slotOrders, k).None?
    ensures Run(g, busy, order, slotOrders, n).None?
    decreases n - k
  {
    if k < n {
      RunStaysFailed(g, busy, order, slotOrders, k + 1, n);
    }
  }

  /** Task `k` is reached with all earlier tasks placed and has no slot in its list where it is feasible. */
  ghost predicate StuckAt(g: Grid, busy: set<TeacherSlot>, order: seq<Task>, slotOrders: seq<seq<Slot>>, k: nat)
    requires |order| == |slotOrders|
  {
    && k < |order|
    && Run(g, busy, order, slotOrders, k).Some?
    && var st := Run(g, busy, order, slotOrders, k).value;
      forall j :: 0 <= j < |slotOrders[k]| ==> !Feasible(st.grid, st.busy, order[k], slotOrders[k][j])
  }

  /** An attempt fails exactly when some task gets stuck. */
  lemma {:induction false} RunFails(g: Grid, busy: set<TeacherSlot>, order: seq<Task>, slotOrders: seq<seq<Slot>>, n: nat)
    requires n <= |order| == |slotOrders|
    ensures Run(g, busy, order, slotOrders, n).None? <==> exists k :: 0 <= k < n && StuckAt(g, busy, order, slotOrders, k)
    decreases n
  {
    if n > 0 {
      RunFails(g, busy, order, slotOrders, n - 1);
      if Run(g, busy, order, slotOrders, n - 1).None? {
        var k :| 0 <= k < n - 1 && StuckAt(g, busy, order, slotOrders, k);
      } else {
        var st := Run(g, busy, order, slotOrders, n - 1).value;
        FirstFeasibleSpec(st.grid, st.busy, order[n - 1], slotOrders[n - 1]);
        if Run(g, busy, order, slotOrders, n).None? {
          assert StuckAt(g, busy, order, slotOrders, n - 1);
        }
      }
    }
  }

  /** A running attempt keeps the grid's shape and picks one slot per placed
      task, each from that task's own slot list. */
  lemma {:induction false} RunShape(g: Grid, busy: set<TeacherSlot>, order: seq<Task>, slotOrders: seq<seq<Slot>>, k: nat)
    requires k <= |order| == |slotOrders|
    requires Run(g, busy, order, slotOrders, k).Some?
    ensures var st := Run(g, busy, order, slotOrders, k).value;
      && SameShape(g, st.grid)
      && |st.slots| == k
      && forall j :: 0 <= j < k ==> st.slots[j] in slotOrders[j]
    decreases k
  {
    if k > 0 {
      RunShape(g, busy, order, slotOrders, k - 1);
      var st := Run(g, busy, order, slotOrders, k - 1).value;
      var s := FirstFeasible(st.grid, st.busy, order[k - 1], slotOrders[k - 1]).value;
      var st' := Commit(st, order[k - 1], s);
      assert forall j :: 0 <= j < k - 1 ==> st'.slots[j] == st.slots[j];
    }
  }

  /** The solver never overwrites a cell that was not empty (or did not exist). */
  ghost predicate KeepsInv(g: Grid, st: State) {
    forall c, s :: CellAt(g, c, s) != Some(Empty) ==> CellAt(st.grid, c, s) == CellAt(g, c, s)
  }

  lemma {:induction false} RunKeeps(g: Grid, busy: set<TeacherSlot>, order: seq<Task>, slotOrders: seq<seq<Slot>>, k: nat)
    requires k <= |order| == |slotOrders|
    requires Run(g, busy, order, slotOrders, k).Some?
    ensures KeepsInv(g, Run(g, busy, order, slotOrders, k).value)
    decreases k
  {
    if k > 0 {
      RunKeeps(g, busy, order, slotOrders, k - 1);
    }
  }

  /** The busy map is the initial one plus one mark per placed task. */
  ghost predicate BusyInv(busy: set<TeacherSlot>, order: seq<Task>, st: State) {
    && |st.slots| <= |order|
    && forall m :: m in st.busy <==> m in busy || exists j :: 0 <= j < |st.slots| && m == TeacherSlot(order[j].teacher, st.slots[j])
  }

  lemma BusyStep(busy: set<TeacherSlot>, order: seq<Task>, st: State, s: Slot)
    requires BusyInv(busy, order, st) && |st.slots| < |order|
    requires Feasible(st.grid, st.busy, order[|st.slots|], s)
    ensures BusyInv(busy, order, Commit(st, order[|st.slots|], s))
  {
    var n := |st.slots|;
    var st' := Commit(st, order[n], s);
    assert forall j :: 0 <= j < n ==> st'.slots[j] == st.slots[j];
    assert st'.slots[n] == s;
  }

  lemma {:induction false} RunBusy(g: Grid, busy: set<TeacherSlot>, order: seq<Task>, slotOrders: seq<seq<Slot>>, k: nat)
    requires k <= |order| == |slotOrders|
    requires Run(g, busy, order, slotOrders, k).Some?
    ensures |Run(g, busy, order, slotOrders, k).value.slots| == k
    ensures BusyInv(busy, order, Run(g, busy, order, slotOrders, k).value)
    decreases k
  {
    if k > 0 {
      RunBusy(g, busy, order, slotOrders, k - 1);
      var st := Run(g, busy, order, slotOrders, k - 1).value;
      BusyStep(busy, order, st, FirstFeasible(st.grid, st.busy, order[k - 1], slotOrders[k - 1]).value);
    }
  }

  /** Every placed task's label sits in all its classes at its slot, and a
      cell that is empty now was empty at the start. */
  ghost predicate WritesInv(g: Grid, order: seq<Task>, st: State) {
    && |st.slots| <= |order|
    && (forall j, c :: 0 <= j < |st.slots| && c in order[j].classes ==> CellAt(st.grid, c, st.slots[j]) == Some(LabelOf(order[j])))
    && (forall c, s :: CellAt(st.grid, c, s) == Some(Empty) ==> CellAt(g, c, s) == Some(Empty))
  }

  lemma WritesStep(g: Grid, order: seq<Task>, st: State, s: Slot)
    requires WritesInv(g, order, st) && |st.slots| < |order|
    requires Feasible(st.grid, st.busy, order[|st.slots|], s)
    ensures WritesInv(g, order, Commit(st, order[|st.slots|], s))
  {
    var n := |st.slots|;
    var st' := Commit(st, order[n], s);
    forall j, c | 0 <= j < n + 1 && c in order[j].classes ensures CellAt(st'.grid, c, st'.slots[j]) == Some(LabelOf(order[j])) {
      if j < n {
        assert st'.slots[j] == st.slots[j];
      }
    }
  }

  lemma {:induction false} RunWrites(g: Grid, busy: set<TeacherSlot>, order: seq<Task>, slotOrders: seq<seq<Slot>>, k: nat)
    requires k <= |order| == |slotOrders|
    requires Run(g, busy, order, slotOrders, k).Some?
    ensures |Run(g, busy, order, slotOrders, k).value.slots| == k
    ensures WritesInv(g, order, Run(g, busy, order, slotOrders, k).value)
    decreases k
  {
    if k > 0 {
      RunWrites(g, busy, order, slotOrders, k - 1);
      var st := Run(g, busy, order, slotOrders, k - 1).value;
      WritesStep(g, order, st, FirstFeasible(st.grid, st.busy, order[k - 1], slotOrders[k - 1]).value);
    }
  }

  /** Every changed cell was empty and now holds the label of a placed task
      of that class whose slot it is. */
  ghost predicate ChangesInv(g: Grid, order: seq<Task>, st: State) {
    && |st.slots| <= |order|
    && forall c, s :: CellAt(st.grid, c, s) != CellAt(g, c, s) ==>
      && CellAt(g, c, s) == Some(Empty)
      && exists j :: 0 <= j < |st.slots| && c in order[j].classes && st.slots[j] == s && CellAt(st.grid, c, s) == Some(LabelOf(order[j]))
  }

  lemma ChangesStep(g: Grid, order: seq<Task>, st: State, s: Slot)
    requires ChangesInv(g, order, st) && |st.slots| < |order|
    requires Feasible(st.grid, st.busy, order[|st.slots|], s)
    ensures ChangesInv(g, order, Commit(st, order[|st.slots|], s))
  {
    var n := |st.slots|;
    var t := order[n];
    var st' := Commit(st, t, s);
    forall c, s' | CellAt(st'.grid, c, s') != CellAt(g, c, s')
      ensures CellAt(g, c, s') == Some(Empty)
      ensures exists j :: 0 <= j < n + 1 && c in order[j].classes && st'.slots[j] == s' && CellAt(st'.grid, c, s') == Some(LabelOf(order[j]))
    {
      if c in t.classes && s' == s {
        assert st'.slots[n] == s;
      } else {
        var j :| 0 <= j < n && c in order[j].classes && st.slots[j] == s' && CellAt(st.grid, c, s') == Some(LabelOf(order[j]));
        assert st'.slots[j] == st.slots[j];
      }
    }
  }

  lemma {:induction false} RunChanges(g: Grid, busy: set<TeacherSlot>, order: seq<Task>, slotOrders: seq<seq<Slot>>, k: nat)
    requires k <= |order| == |slotOrders|
    requires Run(g, busy, order, slotOrders, k).Some?
    ensures |Run(g, busy, order, slotOrders, k).value.slots| == k
    ensures ChangesInv(g, order, Run(g, busy, order, slotOrders, k).value)
    decreases k
  {
    if k > 0 {
      RunChanges(g, busy, order, slotOrders, k - 1);
      var st := Run(g, busy, order, slotOrders, k - 1).value;
      ChangesStep(g, order, st, FirstFeasible(st.grid, st.busy, order[k - 1], slotOrders[k - 1]).value);
    }
  }

  /** Every placed task went to a slot where its teacher was not busy at the
      start and not used by an earlier task of that teacher. */
  ghost predicate TeacherInv(busy: set<TeacherSlot>, order: seq<Task>, st: State) {
    && |st.slots| <= |order|
    && (forall j :: 0 <= j < |st.slots| ==> TeacherSlot(order[j].teacher, st.slots[j]) !in busy)
    && (forall i, j :: 0 <= i < j < |st.slots| && order[i].teacher == order[j].teacher ==> st.slots[i] != st.slots[j])
  }

  lemma TeacherStep(busy: set<TeacherSlot>, order: seq<Task>, st: State, s: Slot)
    requires TeacherInv(busy, order, st) && BusyInv(busy, order, st) && |st.slots| < |order|
    requires Feasible(st.grid, st.busy, order[|st.slots|], s)
    ensures TeacherInv(busy, order, Commit(st, order[|st.slots|], s))
  {
    var n := |st.slots|;
    var st' := Commit(st, order[n], s);
    assert forall j :: 0 <= j < n ==> st'.slots[j] == st.slots[j];
    assert st'.slots[n] == s;
    forall i | 0 <= i < n && order[i].teacher == order[n].teacher ensures st.slots[i] != s {
      assert TeacherSlot(order[i].teacher, st.slots[i]) in st.busy;
    }
  }

  lemma {:induction false} RunTeachers(g: Grid, busy: set<TeacherSlot>, order: seq<Task>, slotOrders: seq<seq<Slot>>, k: nat)
    requires k <= |order| == |slotOrders|
    requires Run(g, busy, order, slotOrders, k).Some?
    ensures |Run(g, busy, order, slotOrders, k).value.slots| == k
    ensures TeacherInv(busy, order, Run(g, busy, order, slotOrders, k).value)
    decreases k
  {
    if k > 0 {
      RunTeachers(g, busy, order, slotOrders, k - 1);
      RunBusy(g, busy, order, slotOrders, k - 1);
      var st := Run(g, busy, order, slotOrders, k - 1).value;
      TeacherStep(busy, order, st, FirstFeasible(st.grid, st.busy, order[k - 1], slotOrders[k - 1]).value);
    }
  }

  /** Every placed task went to a slot where all its classes' cells were empty
      at the start and not used by an earlier task sharing a class. */
  ghost predicate ClassInv(g: Grid, order: seq<Task>, st: State) {
    && |st.slots| <= |order|
    && (forall j, c :: 0 <= j < |st.slots| && c in order[j].classes ==> CellAt(g, c, st.slots[j]) == Some(Empty))
    && (forall i, j, c :: 0 <= i < j < |st.slots| && c in order[i].classes && c in order[j].classes ==> st.slots[i] != st.slots[j])
  }

  lemma ClassStep(g: Grid, order: seq<Task>, st: State, s: Slot)
    requires ClassInv(g, order, st) && WritesInv(g, order, st) && |st.slots| < |order|
    requires Feasible(st.grid, st.busy, order[|st.slots|], s)
    ensures ClassInv(g, order, Commit(st, order[|st.slots|], s))
  {
    var n := |st.slots|;
    var st' := Commit(st, order[n], s);
    forall j, c | 0 <= j <= n && c in order[j].classes ensures CellAt(g, c, st'.slots[j]) == Some(Empty) {
      if j < n {
        assert st'.slots[j] == st.slots[j];
      } else {
        assert st'.slots[j] == s;
      }
    }
    forall i, j, c | 0 <= i < j <= n && c in order[i].classes && c in order[j].classes ensures st'.slots[i] != st'.slots[j] {
      assert st'.slots[i] == st.slots[i];
      if j < n {
        assert st'.slots[j] == st.slots[j];
      } else {
        assert st'.slots[j] == s;
        assert CellAt(st.grid, c, st.slots[i]) == Some(LabelOf(order[i]));
      }
    }
  }

  lemma {:induction false} RunClasses(g: Grid, busy: set<TeacherSlot>, order: seq<Task>, slotOrders: seq<seq<Slot>>, k: nat)
    requires k <= |order| == |slotOrders|
    requires Run(g, busy, order, slotOrders, k).Some?
    ensures |Run(g, busy, order, slotOrders, k).value.slots| == k
    ensures ClassInv(g, order, Run(g, busy, order, slotOrders, k).value)
    decreases k
  {
    if k > 0 {
      RunClasses(g, busy, order, slotOrders, k - 1);
      RunWrites(g, busy, order, slotOrders, k - 1);
      var st := Run(g, busy, order, slotOrders, k - 1).value;
      ClassStep(g, order, st, FirstFeasible(st.grid, st.busy, order[k - 1], slotOrders[k - 1]).value);
    }
  }

  /** Placing a feasible task introduces no clash and keeps the busy map
      covering every taught slot. */
  lemma CommitNoClash(st: State, t: Task, s: Slot)
    requires Feasible(st.grid, st.busy, t, s)
    requires NoClash(st.grid) && BusyOf(st.grid) <= st.busy
    ensures NoClash(Commit(st, t, s).grid) && BusyOf(Commit(st, t, s).grid) <= Commit(st, t, s).busy
  {
    var st' := Commit(st, t, s);
    forall c1, c2, s' ensures !Clash(CellAt(st'.grid, c1, s'), CellAt(st'.grid, c2, s')) {
    }
    forall m | m in BusyOf(st'.grid) ensures m in st'.busy {
      var c :| Teaches(st'.grid, c, m);
      if !(c in t.classes && m.slot == s) {
        assert Teaches(st.grid, c, m);
      }
    }
  }

  /** Started from a grid without clashes and with a busy map covering it, an
      attempt leaves a grid without clashes: the teacher-collision rule holds
      for everything the solver adds. */
  lemma {:induction false} RunNoClash(g: Grid, busy: set<TeacherSlot>, order: seq<Task>, slotOrders: seq<seq<Slot>>, k: nat)
    requires k <= |order| == |slotOrders|
    requires NoClash(g) && BusyOf(g) <= busy
    requires Run(g, busy, order, slotOrders, k).Some?
    ensures NoClash(Run(g, busy, order, slotOrders, k).value.grid)
    ensures BusyOf(Run(g, busy, order, slotOrders, k).value.grid) <= Run(g, busy, order, slotOrders, k).value.busy
    decreases k
  {
    if k > 0 {
      RunNoClash(g, busy, order, slotOrders, k - 1);
      var st := Run(g, busy, order, slotOrders, k - 1).value;
      CommitNoClash(st, order[k - 1], FirstFeasible(st.grid, st.busy, order[k - 1], slotOrders[k - 1]).value);
    }
  }

  // ---------------------------------------------------------------------
  // The executable solver

  /** `for (let {d, p} of slots)`: the first slot where the task fits. */
  method FindSlot(g: Grid, busy: set<TeacherSlot>, t: Task, slots: seq<Slot>) returns (r: Option<Slot>)
    ensures r == FirstFeasible(g, busy, t, slots)
  {
    var k := 0;
    while k < |slots|
      invariant 0 <= k <= |slots|
      invariant FirstFeasible(g, busy, t, slots) == FirstFeasible(g, busy, t, slots[k..])
    {
      if Feasible(g, busy, t, slots[k]) {
        return Some(slots[k]);
      }
      assert slots[k..][1..] == slots[k + 1..];
      k := k + 1;
    }
    return None;
  }

  /** One attempt: the tasks in the shuffle's order, stopping at the first
      that fits nowhere. */
  method RunAttempt(g: Grid, sh: Shuffle) returns (r: Option<State>)
    requires WellSized(sh)
    ensures r == Attempt(g, sh)
  {
    var st := State(g, BusyOf(g), []);
    var k := 0;
    while k < |sh.order|
      invariant 0 <= k <= |sh.order|
      invariant Run(g, BusyOf(g), sh.order, sh.slotOrders, k) == Some(st)
    {
      var s := FindSlot(st.grid, st.busy, sh.order[k], sh.slotOrders[k]);
      if s.None? {
        RunStaysFailed(g, BusyOf(g), sh.order, sh.slotOrders, k + 1, |sh.order|);
        return None;
      }
      st := Commit(st, sh.order[k], s.value);
      k := k + 1;
    }
    return Some(st);
  }

  datatype SolveOutcome = Solved(attempt: nat, grid: Grid, slots: seq<Slot>) | Exhausted

  /** `for (attempt = 0; attempt < MAX_ATTEMPTS; attempt++)`: the first
      attempt that places every task wins; when all of them fail, nothing
      is committed. */
  method Solve(g: Grid, shuffles: seq<Shuffle>) returns (r: SolveOutcome)
    requires |shuffles| == MaxAttempts
    requires forall a :: 0 <= a < |shuffles| ==> WellSized(shuffles[a])
    ensures r.Solved? ==>
      && r.attempt < MaxAttempts
      && Attempt(g, shuffles[r.attempt]).Some?
      && Attempt(g, shuffles[r.attempt]).value.grid == r.grid
      && Attempt(g, shuffles[r.attempt]).value.slots == r.slots
      && forall a :: 0 <= a < r.attempt ==> Attempt(g, shuffles[a]).None?
    ensures r.Exhausted? <==> forall a :: 0 <= a < MaxAttempts ==> Attempt(g, shuffles[a]).None?
  {
    var a := 0;
    while a < MaxAttempts
      invariant 0 <= a <= MaxAttempts
      invariant forall b :: 0 <= b < a ==> Attempt(g, shuffles[b]).None?
    {
      var res := RunAttempt(g, shuffles[a]);
      if res.Some? {
        return Solved(a, res.value.grid, res.value.slots);
      }
      a := a + 1;
    }
    return Exhausted;
  }
}
