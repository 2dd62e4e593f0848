/** A manual edit of one cell from the class view's dropdown, with the check
    that a subject is not placed more often than its allocation allows. */
module ManualEdit {
  import opened Timetable
  import opened Requirements

  datatype EditOutcome =
    | Cleared                                  // the cell was emptied
    | Written                                  // the new session was stored
    | LimitReached(subject: Subject, limit: int) // the alert; the grid is unchanged
    | UnknownSubject                           // no allocation entry for the subject; silently ignored
    | Fault                                    // the source throws a TypeError; nothing is stored

  datatype Edit = Edit(outcome: EditOutcome, grid: Grid)

  /** `allocations.find(a => a.class_name === cls)`. */
  function FindAllocation(allocs: seq<Allocation>, cls: ClassName): (r: Option<Allocation>)
    ensures r.None? <==> forall i :: 0 <= i < |allocs| ==> allocs[i].className != cls
    ensures r.Some? ==>
      exists i :: 0 <= i < |allocs| && allocs[i] == r.value && r.value.className == cls &&
        forall j :: 0 <= j < i ==> allocs[j].className != cls
    decreases |allocs|
  {
    if allocs == [] then None
    else if allocs[0].className == cls then Some(allocs[0])
    else
      var r := FindAllocation(allocs[1..], cls);
      assert forall i :: 1 <= i < |allocs| ==> allocs[i] == allocs[1..][i - 1];
      if r.Some? then
        ghost var i :| 0 <= i < |allocs[1..]| && allocs[1..][i] == r.value && r.value.className == cls &&
          forall j :: 0 <= j < i ==> allocs[1..][j].className != cls;
        assert allocs[i + 1] == r.value;
        r
      else r
  }

  /** `alloc.subjects.find(s => s.subject === name)`. */
  function FindSubject(subjects: seq<SubjectAlloc>, name: Subject): (r: Option<SubjectAlloc>)
    ensures r.None? <==> forall i :: 0 <= i < |subjects| ==> subjects[i].subject != name
    ensures r.Some? ==>
      exists i :: 0 <= i < |subjects| && subjects[i] == r.value && r.value.subject == name &&
        forall j :: 0 <= j < i ==> subjects[j].subject != name
    decreases |subjects|
  {
    if subjects == [] then None
    else if subjects[0].subject == name then Some(subjects[0])
    else
      var r := FindSubject(subjects[1..], name);
      assert forall i :: 1 <= i < |subjects| ==> subjects[i] == subjects[1..][i - 1];
      if r.Some? then
        ghost var i :| 0 <= i < |subjects[1..]| && subjects[1..][i] == r.value && r.value.subject == name &&
          forall j :: 0 <= j < i ==> subjects[1..][j].subject != name;
        assert subjects[i + 1] == r.value;
        r
      else r
  }

  /** A cell counts towards subject `sub` when it is a session of `sub`, whoever teaches it. */
  function Counts(l: Label, sub: Subject): nat {
    if l.Session? && l.subject == sub then 1 else 0
  }

  /** Cells of `row` holding a session of `sub`. */
  function RowCount(row: Row, sub: Subject): (n: nat)
    ensures n <= |row|
    decreases |row|
  {
    if row == [] then 0 else Counts(row[0], sub) + RowCount(row[1..], sub)
  }

  /** The `currentCount` loop: sessions of `sub` in class `cls` over `days`, or
      `None` when a row is missing. */
  function SubjectCount(g: Grid, cls: ClassName, days: seq<Day>, sub: Subject): (r: Option<nat>)
    requires cls in g
    ensures r.None? <==> exists d :: d in days && d !in g[cls]
    decreases |days|
  {
    if days == [] then Some(0)
    else if days[0] !in g[cls] then None
    else
      match SubjectCount(g, cls, days[1..], sub)
      case None => None
      case Some(n) => Some(RowCount(g[cls][days[0]], sub) + n)
  }

  /** `window.updateCell`: the edit of cell (`cls`, `slot`) to `newValue`.
      Clearing an existing cell always goes through and only that cell
      changes. A session is stored only when the class's first allocation has
      an entry for its subject and the subject's current count in that class
      (over the setup days, whoever teaches it) is below the first such
      entry's periods; otherwise the grid is left as it was. */
  function UpdateCell(setup: Setup, allocs: seq<Allocation>, g: Grid, cls: ClassName, slot: Slot, newValue: Label): (r: Edit)
    ensures r.outcome.Cleared? || r.outcome.Written? ==> CellAt(g, cls, slot).Some? && r.grid == Write(g, cls, slot, newValue)
    ensures !(r.outcome.Cleared? || r.outcome.Written?) ==> r.grid == g
    ensures r.outcome.Cleared? <==> CellAt(g, cls, slot).Some? && newValue == Empty
    ensures newValue.Session? ==> (r.outcome.Fault? <==>
      || CellAt(g, cls, slot).None?
      || (forall i :: 0 <= i < |allocs| ==> allocs[i].className != cls)
      || (&& FindAllocation(allocs, cls).Some?
          && FindSubject(FindAllocation(allocs, cls).value.subjects, newValue.subject).Some?
          && exists d :: d in setup.days && d !in g[cls]))
    ensures r.outcome.UnknownSubject? <==>
      && newValue.Session?
      && CellAt(g, cls, slot).Some?
      && FindAllocation(allocs, cls).Some?
      && forall i :: 0 <= i < |FindAllocation(allocs, cls).value.subjects| ==>
        FindAllocation(allocs, cls).value.subjects[i].subject != newValue.subject
    ensures r.outcome.LimitReached? || r.outcome.Written? ==>
      && newValue.Session?
      && FindAllocation(allocs, cls).Some?
      && FindSubject(FindAllocation(allocs, cls).value.subjects, newValue.subject).Some?
      && SubjectCount(g, cls, setup.days, newValue.subject).Some?
    ensures r.outcome.LimitReached? ==>
      var entry := FindSubject(FindAllocation(allocs, cls).value.subjects, newValue.subject).value;
      && r.outcome.subject == newValue.subject && r.outcome.limit == entry.periods
      && SubjectCount(g, cls, setup.days, newValue.subject).value >= entry.periods
    ensures r.outcome.Written? ==>
      var entry := FindSubject(FindAllocation(allocs, cls).value.subjects, newValue.subject).value;
      SubjectCount(g, cls, setup.days, newValue.subject).value < entry.periods
  {
    if CellAt(g, cls, slot).None? then Edit(Fault, g)
    else if newValue == Empty then Edit(Cleared, Write(g, cls, slot, Empty))
    else
      match FindAllocation(allocs, cls)
      case None => Edit(Fault, g)
      case Some(alloc) =>
        match FindSubject(alloc.subjects, newValue.subject)
        case None => Edit(UnknownSubject, g)
        case Some(entry) =>
          match SubjectCount(g, cls, setup.days, newValue.subject)
          case None => Edit(Fault, g)
          case Some(count) =>
            if count >= entry.periods then Edit(LimitReached(newValue.subject, entry.periods), g)
            else Edit(Written, Write(g, cls, slot, newValue))
  }

  /** Overwriting one cell of a row changes the row's count of `sub` by what
      the cell gave and takes. */
  lemma {:induction false} RowCountWrite(row: Row, p: nat, l: Label, sub: Subject)
    requires p < |row|
    ensures RowCount(row[p := l], sub) + Counts(row[p], sub) == RowCount(row, sub) + Counts(l, sub)
    decreases |row|
  {
    if p > 0 {
      assert row[p := l][1..] == row[1..][p - 1 := l];
      RowCountWrite(row[1..], p - 1, l, sub);
    } else {
      assert row[p := l][1..] == row[1..];
    }
  }

  /** With distinct days, writing one cell changes the class's count of
      `sub` by what the cell gave and takes when its day is counted, and
      not at all otherwise. */
  lemma {:induction false} SubjectCountWrite(g: Grid, cls: ClassName, days: seq<Day>, slot: Slot, l: Label, sub: Subject)
    requires CellAt(g, cls, slot).Some? && Distinct(days)
    requires SubjectCount(g, cls, days, sub).Some?
    ensures SubjectCount(Write(g, cls, slot, l), cls, days, sub).Some?
    ensures var before := SubjectCount(g, cls, days, sub).value;
      var after := SubjectCount(Write(g, cls, slot, l), cls, days, sub).value;
      if slot.day in days then after + Counts(g[cls][slot.day][slot.period], sub) == before + Counts(l, sub)
      else after == before
    decreases |days|
  {
    var h := Write(g, cls, slot, l);
    assert h[cls].Keys == g[cls].Keys;
    if days != [] {
      assert Distinct(days[1..]) by {
        forall i, j | 0 <= i < j < |days[1..]| ensures days[1..][i] != days[1..][j] {
          assert days[1..][i] == days[i + 1] && days[1..][j] == days[j + 1];
        }
      }
      SubjectCountWrite(g, cls, days[1..], slot, l, sub);
      if days[0] == slot.day {
        RowCountWrite(g[cls][slot.day], slot.period, l, sub);
        assert slot.day !in days[1..] by {
          forall i | 0 <= i < |days[1..]| ensures days[1..][i] != days[0] {
            assert days[1..][i] == days[i + 1];
          }
        }
      } else {
        assert h[cls][days[0]] == g[cls][days[0]];
      }
    }
  }

  /** The validation keeps its promise: with distinct setup days, a stored
      session never takes its subject's count in that class above the periods
      of the class's entry for the subject. */
  lemma {:induction false} WriteRespectsCap(setup: Setup, allocs: seq<Allocation>, g: Grid, cls: ClassName, slot: Slot, newValue: Label)
    requires Distinct(setup.days)
    requires UpdateCell(setup, allocs, g, cls, slot, newValue).outcome.Written?
    ensures var entry := FindSubject(FindAllocation(allocs, cls).value.subjects, newValue.subject).value;
      var h := UpdateCell(setup, allocs, g, cls, slot, newValue).grid;
      && SubjectCount(h, cls, setup.days, newValue.subject).Some?
      && SubjectCount(h, cls, setup.days, newValue.subject).value <= entry.periods
  {
    SubjectCountWrite(g, cls, setup.days, slot, newValue, newValue.subject);
  }

  /** Clearing a cell never raises any subject's count, even when a day is
      listed, and so counted, more than once. */
  lemma {:induction false} ClearNeverRaises(setup: Setup, allocs: seq<Allocation>, g: Grid, cls: ClassName, slot: Slot, sub: Subject)
    requires UpdateCell(setup, allocs, g, cls, slot, Empty).outcome.Cleared?
    requires SubjectCount(g, cls, setup.days, sub).Some?
    ensures var h := UpdateCell(setup, allocs, g, cls, slot, Empty).grid;
      && SubjectCount(h, cls, setup.days, sub).Some?
      && SubjectCount(h, cls, setup.days, sub).value <= SubjectCount(g, cls, setup.days, sub).value
  {
    ClearCount(g, cls, setup.days, slot, sub);
  }

  /** Over any list of days, emptying one existing cell keeps every row
      present and lowers no row's count of `sub`. */
  lemma {:induction false} ClearCount(g: Grid, cls: ClassName, days: seq<Day>, slot: Slot, sub: Subject)
    requires CellAt(g, cls, slot).Some?
    requires SubjectCount(g, cls, days, sub).Some?
    ensures SubjectCount(Write(g, cls, slot, Empty), cls, days, sub).Some?
    ensures SubjectCount(Write(g, cls, slot, Empty), cls, days, sub).value <= SubjectCount(g, cls, days, sub).value
    decreases |days|
  {
    var h := Write(g, cls, slot, Empty);
    assert h[cls].Keys == g[cls].Keys;
    if days != [] {
      ClearCount(g, cls, days[1..], slot, sub);
      if days[0] == slot.day {
        RowCountWrite(g[cls][slot.day], slot.period, Empty, sub);
      } else {
        assert h[cls][days[0]] == g[cls][days[0]];
      }
    }
  }

  /** Auto-fill counts only exact `"subject (teacher)"` matches, the edit cap
      every session of the subject: the first never exceeds the second, and
      falls short of it whenever the row holds the subject under another
      teacher. */
  lemma {:induction false} ExactWithinSubject(row: Row, sub: Subject, t: Teacher)
    ensures CountLabel(row, Session(sub, t)) <= RowCount(row, sub)
    ensures (exists p :: 0 <= p < |row| && row[p].Session? && row[p].subject == sub && row[p].teacher != t) ==>
      CountLabel(row, Session(sub, t)) < RowCount(row, sub)
    decreases |row|
  {
    if row != [] {
      ExactWithinSubject(row[1..], sub, t);
      if exists p :: 0 <= p < |row| && row[p].Session? && row[p].subject == sub && row[p].teacher != t {
        var p :| 0 <= p < |row| && row[p].Session? && row[p].subject == sub && row[p].teacher != t;
        if p > 0 {
          assert row[1..][p - 1] == row[p];
        }
      }
    }
  }
}
