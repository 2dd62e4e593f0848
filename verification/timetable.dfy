/** The data model of the timetable engine: setup, allocations, session
    labels, the schedule grid and the tasks the solver places. */
module Timetable {

  type ClassName = string
  type Day = string
  type Subject = string
  type Teacher = string

  datatype Option<+T> = None | Some(value: T)

  /** A grid cell: the source's empty string, or a "Subject (Teacher)" label
      kept as a structured pair. */
  datatype Label = Empty | Session(subject: Subject, teacher: Teacher)

  type Row = seq<Label>

  /** class_name -> day -> one label per period. */
  type Grid = map<ClassName, map<Day, Row>>

  datatype Setup = Setup(days: seq<Day>, periodsPerDay: nat)

  /** One `{subject, teacher, periods}` entry of an allocation. */
  datatype SubjectAlloc = SubjectAlloc(subject: Subject, teacher: Teacher, periods: int)

  datatype Allocation = Allocation(className: ClassName, subjects: seq<SubjectAlloc>)

  /** A (day, period) position in the week. */
  datatype Slot = Slot(day: Day, period: nat)

  /** A teacher at a slot: an entry of the solver's busy map and the key of
      the collision check's first-seen schedule. */
  datatype TeacherSlot = TeacherSlot(teacher: Teacher, slot: Slot)

  /** One session to be placed into all of `classes` at one common slot. */
  datatype Task = Task(teacher: Teacher, subject: Subject, classes: seq<ClassName>)

  function LabelOf(t: Task): Label {
    Session(t.subject, t.teacher)
  }

  function CellAt(g: Grid, c: ClassName, s: Slot): Option<Label> {
    if c in g && s.day in g[c] && s.period < |g[c][s.day]| then Some(g[c][s.day][s.period]) else None
  }

  /** `g[c][day][period] = l` on a cell that exists. */
  function Write(g: Grid, c: ClassName, s: Slot, l: Label): (r: Grid)
    requires CellAt(g, c, s).Some?
    ensures SameShape(g, r)
    ensures forall c', s' :: CellAt(r, c', s') == if c' == c && s' == s then Some(l) else CellAt(g, c', s')
  {
    g[c := g[c][s.day := g[c][s.day][s.period := l]]]
  }

  /** Two cells hold sessions of one teacher with different subjects. */
  predicate Clash(a: Option<Label>, b: Option<Label>) {
    && a.Some? && b.Some? && a.value.Session? && b.value.Session?
    && a.value.teacher == b.value.teacher && a.value.subject != b.value.subject
  }

  /** No teacher is booked for two different subjects at one slot anywhere in the grid. */
  ghost predicate NoClash(g: Grid) {
    forall c1, c2, s :: !Clash(CellAt(g, c1, s), CellAt(g, c2, s))
  }

  /** `g` and `h` have the same classes, the same days per class and rows of the same lengths. */
  ghost predicate SameShape(g: Grid, h: Grid) {
    && g.Keys == h.Keys
    && forall c :: c in g ==> g[c].Keys == h[c].Keys && forall d :: d in g[c] ==> |g[c][d]| == |h[c][d]|
  }

  /** Every allocated class has a row of `periodsPerDay` cells for every setup day. */
  ghost predicate Shaped(setup: Setup, allocs: seq<Allocation>, g: Grid) {
    forall i, d :: 0 <= i < |allocs| && d in setup.days ==>
      && allocs[i].className in g
      && d in g[allocs[i].className]
      && |g[allocs[i].className][d]| == setup.periodsPerDay
  }

  /** The rows the requirement calculation reads exist: for every allocation
      with at least one subject, every setup day of its class. */
  predicate RowsPresent(setup: Setup, allocs: seq<Allocation>, g: Grid) {
    forall i, d :: 0 <= i < |allocs| && |allocs[i].subjects| > 0 && d in setup.days ==>
      allocs[i].className in g && d in g[allocs[i].className]
  }

  /** A grid with every allocated class's rows has the rows auto-fill reads. */
  lemma ShapedRowsPresent(setup: Setup, allocs: seq<Allocation>, g: Grid)
    requires Shaped(setup, allocs, g)
    ensures RowsPresent(setup, allocs, g)
  {
  }

  /** Keeping the shape keeps every allocated class's rows. */
  lemma SameShapeKeepsShaped(setup: Setup, allocs: seq<Allocation>, g: Grid, h: Grid)
    requires Shaped(setup, allocs, g) && SameShape(g, h)
    ensures Shaped(setup, allocs, h)
  {
  }

  /** The solver's slot list: every setup day, every period, day-major. */
  function AllSlots(setup: Setup): (r: seq<Slot>)
    ensures forall s :: s in r <==> s.day in setup.days && s.period < setup.periodsPerDay
  {
    DaySlots(setup.days, setup.periodsPerDay)
  }

  function DaySlots(days: seq<Day>, n: nat): (r: seq<Slot>)
    ensures forall s :: s in r <==> s.day in days && s.period < n
  {
    if days == [] then [] else PeriodSlots(days[0], n) + DaySlots(days[1..], n)
  }

  function PeriodSlots(d: Day, n: nat): (r: seq<Slot>)
    ensures |r| == n
    ensures forall p :: 0 <= p < n ==> r[p] == Slot(d, p)
    ensures forall s :: s in r <==> s.day == d && s.period < n
  {
    seq(n, p requires 0 <= p < n => Slot(d, p))
  }

  predicate Distinct<T(==)>(s: seq<T>) {
    forall i, j :: 0 <= i < j < |s| ==> s[i] != s[j]
  }
}
