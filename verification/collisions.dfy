/** The collision check: a scan of every class's rows over the setup days,
    reporting every cell whose subject differs from that of the first cell
    seen for its teacher, day and period. */
module Collisions {
  import opened Timetable

  /** A non-empty cell met by the scan. */
  datatype Occupied = Occupied(cls: ClassName, slot: Slot, subject: Subject, teacher: Teacher)

  /** The `{subject, class}` remembered for a key: the first cell seen with it. */
  datatype Seen = Seen(subject: Subject, cls: ClassName)

  /** One reported line: `teacher: firstSubject(firstClass) vs subject(cls) on day Pd period+1`. */
  datatype Collision = Collision(teacher: Teacher, slot: Slot, firstSubject: Subject, firstClass: ClassName, subject: Subject, cls: ClassName)

  /** The `schedule[teacher][day][period]` key of a cell. */
  function SlotKeyOf(o: Occupied): TeacherSlot {
    TeacherSlot(o.teacher, o.slot)
  }

  /** Cell `o` is the session the grid holds at its class and slot. */
  predicate Holds(g: Grid, o: Occupied) {
    CellAt(g, o.cls, o.slot) == Some(Session(o.subject, o.teacher))
  }

  /** The non-empty cells of `row` (class `c`, day `d`), by period. */
  function RowCells(c: ClassName, d: Day, row: Row): (r: seq<Occupied>)
    ensures forall o :: o in r <==> o.cls == c && o.slot.day == d && o.slot.period < |row| && row[o.slot.period] == Session(o.subject, o.teacher)
    decreases |row|
  {
    if row == [] then []
    else
      var p := |row| - 1;
      var pre := row[..p];
      var rest := RowCells(c, d, pre);
      assert forall q :: 0 <= q < p ==> pre[q] == row[q];
      match row[p]
      case Empty => rest
      case Session(sub, t) => rest + [Occupied(c, Slot(d, p), sub, t)]
  }

  /** The cells of class `c` over `days`, or `None` when one of its rows is
      missing (the source then throws on `grid[cls][d].forEach`). */
  function ClassCells(g: Grid, c: ClassName, days: seq<Day>): (r: Option<seq<Occupied>>)
    requires c in g
    ensures r.None? <==> exists d :: d in days && d !in g[c]
    ensures r.Some? ==> forall o :: o in r.value <==> o.cls == c && o.slot.day in days && Holds(g, o)
    decreases |days|
  {
    if days == [] then Some([])
    else if days[0] !in g[c] then None
    else
      match ClassCells(g, c, days[1..])
      case None => None
      case Some(rest) => Some(RowCells(c, days[0], g[c][days[0]]) + rest)
  }

  /** `Object.keys(grid).forEach(cls => days.forEach(d => ...))`: every
      non-empty cell in visiting order, or `None` on a missing row. */
  function Scan(g: Grid, classes: seq<ClassName>, days: seq<Day>): (r: Option<seq<Occupied>>)
    requires forall c :: c in classes ==> c in g
    ensures r.None? <==> exists c, d :: c in classes && d in days && d !in g[c]
    ensures r.Some? ==> forall o :: o in r.value <==> o.cls in classes && o.slot.day in days && Holds(g, o)
    decreases |classes|
  {
    if classes == [] then Some([])
    else
      match ClassCells(g, classes[0], days)
      case None => None
      case Some(here) =>
        match Scan(g, classes[1..], days)
        case None => None
        case Some(rest) => Some(here + rest)
  }

  /** The first cell of `cells` with key `key`, if any. */
  function FirstOf(cells: seq<Occupied>, key: TeacherSlot): Option<Occupied>
    decreases |cells|
  {
    if cells == [] then None
    else
      var pre := FirstOf(cells[..|cells| - 1], key);
      if pre.Some? then pre
      else if SlotKeyOf(cells[|cells| - 1]) == key then Some(cells[|cells| - 1])
      else None
  }

  /** The collision the last cell of a scan reports against the first cell with its key, if any. */
  function ReportAt(pre: seq<Occupied>, o: Occupied): seq<Collision> {
    match FirstOf(pre, SlotKeyOf(o))
    case Some(f) => if f.subject != o.subject then [Collision(o.teacher, o.slot, f.subject, f.cls, o.subject, o.cls)] else []
    case None => []
  }

  /** The reported collisions of a scan, in scan order (reference definition). */
  function Reported(cells: seq<Occupied>): (r: seq<Collision>)
    ensures |r| <= |cells|
    ensures forall x :: x in r ==> x.firstSubject != x.subject
    decreases |cells|
  {
    if cells == [] then []
    else Reported(cells[..|cells| - 1]) + ReportAt(cells[..|cells| - 1], cells[|cells| - 1])
  }

  /** `FirstOf` finds the earliest cell with the key, and nothing exactly when no cell has it. */
  lemma {:induction false} FirstOfSpec(cells: seq<Occupied>, key: TeacherSlot)
    ensures FirstOf(cells, key).None? <==> forall i :: 0 <= i < |cells| ==> SlotKeyOf(cells[i]) != key
    ensures FirstOf(cells, key).Some? ==>
      exists i :: 0 <= i < |cells| && cells[i] == FirstOf(cells, key).value &&
        SlotKeyOf(cells[i]) == key && forall j :: 0 <= j < i ==> SlotKeyOf(cells[j]) != key
    decreases |cells|
  {
    if cells != [] {
      var pre := cells[..|cells| - 1];
      FirstOfSpec(pre, key);
      assert forall i :: 0 <= i < |pre| ==> pre[i] == cells[i];
      if FirstOf(pre, key).Some? {
        var i :| 0 <= i < |pre| && pre[i] == FirstOf(pre, key).value
          && SlotKeyOf(pre[i]) == key && forall j :: 0 <= j < i ==> SlotKeyOf(pre[j]) != key;
      }
    }
  }

  /** A cell collides when an earlier cell has its key and a different subject
      than the first cell with that key. */
  ghost predicate CollidesAt(cells: seq<Occupied>, k: int) {
    && 0 <= k < |cells|
    && FirstOf(cells[..k], SlotKeyOf(cells[k])).Some?
    && FirstOf(cells[..k], SlotKeyOf(cells[k])).value.subject != cells[k].subject
  }

  lemma {:induction false} ReportedEmptyAt(cells: seq<Occupied>)
    ensures Reported(cells) == [] <==> forall k :: 0 <= k < |cells| ==> !CollidesAt(cells, k)
    decreases |cells|
  {
    if cells != [] {
      var n := |cells| - 1;
      var pre := cells[..n];
      ReportedEmptyAt(pre);
      assert ReportAt(pre, cells[n]) == [] <==> !CollidesAt(cells, n);
      assert Reported(cells) == [] <==> Reported(pre) == [] && ReportAt(pre, cells[n]) == [];
      forall k | 0 <= k < n ensures CollidesAt(cells, k) <==> CollidesAt(pre, k) {
        assert cells[..k] == pre[..k];
        assert cells[k] == pre[k];
      }
    }
  }

  /** The first index with a key decides `FirstOf` of every longer prefix. */
  lemma FirstOfAt(cells: seq<Occupied>, k: nat, fi: nat)
    requires fi < k <= |cells|
    requires forall m :: 0 <= m < fi ==> SlotKeyOf(cells[m]) != SlotKeyOf(cells[fi])
    ensures FirstOf(cells[..k], SlotKeyOf(cells[fi])) == Some(cells[fi])
  {
    var key := SlotKeyOf(cells[fi]);
    var pre := cells[..k];
    FirstOfSpec(pre, key);
    assert pre[fi] == cells[fi];
    var i :| 0 <= i < |pre| && pre[i] == FirstOf(pre, key).value && SlotKeyOf(pre[i]) == key
      && forall j :: 0 <= j < i ==> SlotKeyOf(pre[j]) != key;
    assert pre[i] == cells[i];
    assert i == fi;
  }

  /** With no cell colliding, two cells with one key agree in subject: both
      agree with the first cell with that key. */
  lemma AgreeWhenNoneCollide(cells: seq<Occupied>, i: nat, j: nat)
    requires i < j < |cells| && SlotKeyOf(cells[i]) == SlotKeyOf(cells[j])
    requires forall k :: 0 <= k < |cells| ==> !CollidesAt(cells, k)
    ensures cells[i].subject == cells[j].subject
  {
    var key := SlotKeyOf(cells[i]);
    var pre := cells[..j];
    FirstOfSpec(pre, key);
    assert pre[i] == cells[i];
    var fi :| 0 <= fi < j && pre[fi] == FirstOf(pre, key).value && SlotKeyOf(pre[fi]) == key
      && forall m :: 0 <= m < fi ==> SlotKeyOf(pre[m]) != key;
    assert forall m :: 0 <= m < fi ==> pre[m] == cells[m];
    assert pre[fi] == cells[fi];
    FirstOfAt(cells, j, fi);
    assert !CollidesAt(cells, j);
    if fi < i {
      FirstOfAt(cells, i, fi);
      assert !CollidesAt(cells, i);
    }
  }

  /** A colliding cell disagrees with the first cell with its key. */
  lemma CollidingPair(cells: seq<Occupied>, k: nat)
    requires CollidesAt(cells, k)
    ensures exists i :: 0 <= i < k && SlotKeyOf(cells[i]) == SlotKeyOf(cells[k]) && cells[i].subject != cells[k].subject
  {
    var key := SlotKeyOf(cells[k]);
    var pre := cells[..k];
    FirstOfSpec(pre, key);
    var fi :| 0 <= fi < k && pre[fi] == FirstOf(pre, key).value && SlotKeyOf(pre[fi]) == key;
    assert cells[fi] == pre[fi];
  }

  /** The check reports nothing exactly when every two scanned cells with the
      same teacher, day and period have the same subject. */
  lemma {:induction false} NoCollisionsIff(cells: seq<Occupied>)
    ensures Reported(cells) == [] <==>
      forall i, j :: 0 <= i < j < |cells| && SlotKeyOf(cells[i]) == SlotKeyOf(cells[j]) ==> cells[i].subject == cells[j].subject
  {
    ReportedEmptyAt(cells);
    if Reported(cells) == [] {
      forall i, j | 0 <= i < j < |cells| && SlotKeyOf(cells[i]) == SlotKeyOf(cells[j]) ensures cells[i].subject == cells[j].subject {
        AgreeWhenNoneCollide(cells, i, j);
      }
    } else {
      var k :| 0 <= k < |cells| && CollidesAt(cells, k);
      CollidingPair(cells, k);
    }
  }

  /** Every reported collision names two cells of the scan, the first seen
      earlier, with one teacher, day and period and different subjects. */
  lemma {:induction false} ReportedSound(cells: seq<Occupied>)
    ensures forall x :: x in Reported(cells) ==>
      exists i, j :: 0 <= i < j < |cells| &&
        cells[i] == Occupied(x.firstClass, x.slot, x.firstSubject, x.teacher) &&
        cells[j] == Occupied(x.cls, x.slot, x.subject, x.teacher) && x.firstSubject != x.subject
    decreases |cells|
  {
    if cells != [] {
      var n := |cells| - 1;
      var pre := cells[..n];
      ReportedSound(pre);
      forall x | x in Reported(cells)
        ensures exists i, j :: (0 <= i < j < |cells| &&
          cells[i] == Occupied(x.firstClass, x.slot, x.firstSubject, x.teacher) &&
          cells[j] == Occupied(x.cls, x.slot, x.subject, x.teacher) && x.firstSubject != x.subject)
      {
        if x in Reported(pre) {
          var i, j :| 0 <= i < j < |pre| &&
            pre[i] == Occupied(x.firstClass, x.slot, x.firstSubject, x.teacher) &&
            pre[j] == Occupied(x.cls, x.slot, x.subject, x.teacher) && x.firstSubject != x.subject;
          assert cells[i] == pre[i] && cells[j] == pre[j];
        } else {
          var key := SlotKeyOf(cells[n]);
          FirstOfSpec(pre, key);
          var i :| 0 <= i < |pre| && pre[i] == FirstOf(pre, key).value && SlotKeyOf(pre[i]) == key
            && forall m :: 0 <= m < i ==> SlotKeyOf(pre[m]) != key;
          assert cells[i] == pre[i];
        }
      }
    }
  }

  /** The loop over the scanned cells with the `schedule` map of first-seen
      entries: a cell whose key is new is remembered, a cell whose key is known
      with another subject is reported. */
  method Detect(cells: seq<Occupied>) returns (r: seq<Collision>)
    ensures r == Reported(cells)
  {
    var schedule: map<TeacherSlot, Seen> := map[];
    r := [];
    for k := 0 to |cells|
      invariant forall key :: key in schedule <==> FirstOf(cells[..k], key).Some?
      invariant forall key :: key in schedule ==>
        schedule[key] == Seen(FirstOf(cells[..k], key).value.subject, FirstOf(cells[..k], key).value.cls)
      invariant r == Reported(cells[..k])
    {
      var o := cells[k];
      assert cells[..k + 1][..k] == cells[..k];
      if SlotKeyOf(o) in schedule {
        var first := schedule[SlotKeyOf(o)];
        if first.subject != o.subject {
          r := r + [Collision(o.teacher, o.slot, first.subject, first.cls, o.subject, o.cls)];
        }
      } else {
        schedule := schedule[SlotKeyOf(o) := Seen(o.subject, o.cls)];
      }
    }
    assert cells[..|cells|] == cells;
  }

  /** Both cells hold sessions, of one teacher. */
  predicate Sessions(a: Option<Label>, b: Option<Label>) {
    a.Some? && b.Some? && a.value.Session? && b.value.Session? && a.value.teacher == b.value.teacher
  }

  /** No teacher has two different subjects at one period of one of `days`. */
  ghost predicate NoClashOn(g: Grid, days: seq<Day>) {
    forall c1, c2, s: Slot :: s.day in days ==> !Clash(CellAt(g, c1, s), CellAt(g, c2, s))
  }

  /** `checkCollisions()`: `None` when a row of some class for some setup day
      is missing, else the reported collisions. `classes` is the grid's key
      order. */
  method CheckCollisions(setup: Setup, g: Grid, classes: seq<ClassName>) returns (r: Option<seq<Collision>>)
    requires forall c :: c in classes <==> c in g
    ensures r.None? <==> exists c, d :: c in g && d in setup.days && d !in g[c]
    ensures r.Some? ==> (r.value == [] <==> NoClashOn(g, setup.days))
    ensures NoClash(g) && r.Some? ==> r.value == []
    ensures r.Some? <==> Scan(g, classes, setup.days).Some?
    ensures r.Some? ==> r.value == Reported(Scan(g, classes, setup.days).value)
  {
    var cells := Scan(g, classes, setup.days);
    if cells.None? {
      return None;
    }
    var found := Detect(cells.value);
    NoCollisionsIff(cells.value);
    ScanNoClash(setup, g, classes, cells.value);
    return Some(found);
  }

  /** Over a complete scan, pairwise agreement of subjects is the grid's
      freedom from clashes on the scanned days. */
  lemma {:induction false} ScanNoClash(setup: Setup, g: Grid, classes: seq<ClassName>, cells: seq<Occupied>)
    requires forall c :: c in classes <==> c in g
    requires Scan(g, classes, setup.days) == Some(cells)
    ensures (forall i, j :: 0 <= i < j < |cells| && SlotKeyOf(cells[i]) == SlotKeyOf(cells[j]) ==> cells[i].subject == cells[j].subject)
      <==> NoClashOn(g, setup.days)
  {
    if forall i, j :: 0 <= i < j < |cells| && SlotKeyOf(cells[i]) == SlotKeyOf(cells[j]) ==> cells[i].subject == cells[j].subject {
      forall c1, c2, s: Slot | s.day in setup.days && Sessions(CellAt(g, c1, s), CellAt(g, c2, s))
        ensures CellAt(g, c1, s).value.subject == CellAt(g, c2, s).value.subject
      {
        ScannedAgree(setup, g, classes, cells, c1, c2, s);
      }
    } else {
      var i, j :| 0 <= i < j < |cells| && SlotKeyOf(cells[i]) == SlotKeyOf(cells[j]) && cells[i].subject != cells[j].subject;
      ScannedClash(setup, g, classes, cells, i, j);
    }
  }

  /** Two sessions of one teacher at one slot of a scanned day are both
      scanned, so pairwise agreement makes their subjects equal. */
  lemma ScannedAgree(setup: Setup, g: Grid, classes: seq<ClassName>, cells: seq<Occupied>, c1: ClassName, c2: ClassName, s: Slot)
    requires forall c :: c in classes <==> c in g
    requires Scan(g, classes, setup.days) == Some(cells)
    requires forall i, j :: 0 <= i < j < |cells| && SlotKeyOf(cells[i]) == SlotKeyOf(cells[j]) ==> cells[i].subject == cells[j].subject
    requires s.day in setup.days && Sessions(CellAt(g, c1, s), CellAt(g, c2, s))
    ensures CellAt(g, c1, s).value.subject == CellAt(g, c2, s).value.subject
  {
    var l1, l2 := CellAt(g, c1, s).value, CellAt(g, c2, s).value;
    var o1 := Occupied(c1, s, l1.subject, l1.teacher);
    var o2 := Occupied(c2, s, l2.subject, l2.teacher);
    assert Holds(g, o1) && Holds(g, o2);
    var i :| 0 <= i < |cells| && cells[i] == o1;
    var j :| 0 <= j < |cells| && cells[j] == o2;
    if i < j {
      assert SlotKeyOf(cells[i]) == SlotKeyOf(cells[j]);
    } else if j < i {
      assert SlotKeyOf(cells[j]) == SlotKeyOf(cells[i]);
    }
  }

  /** Two scanned cells with one key and different subjects are a clash of the grid. */
  lemma ScannedClash(setup: Setup, g: Grid, classes: seq<ClassName>, cells: seq<Occupied>, i: nat, j: nat)
    requires forall c :: c in classes <==> c in g
    requires Scan(g, classes, setup.days) == Some(cells)
    requires i < j < |cells| && SlotKeyOf(cells[i]) == SlotKeyOf(cells[j]) && cells[i].subject != cells[j].subject
    ensures !NoClashOn(g, setup.days)
  {
    assert cells[i] in cells && cells[j] in cells;
    assert Clash(CellAt(g, cells[i].cls, cells[i].slot), CellAt(g, cells[j].cls, cells[i].slot));
  }
}
