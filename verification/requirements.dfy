/** The first phase of auto-fill: for every (teacher, subject) pair, how many
    more sessions each class still needs. */
module Requirements {
  import opened Timetable
  import opened Dicts

  /** The `"Teacher|Subject"` key, kept as a pair. */
  datatype Key = Key(teacher: Teacher, subject: Subject)

  /** One (allocation, subject entry) pair visited by the nested loop. */
  datatype Entry = Entry(className: ClassName, sub: SubjectAlloc)

  /** Key -> class -> remaining need, both levels in insertion order. */
  type ReqTable = Dict<Key, Dict<ClassName, int>>

  function KeyOf(s: SubjectAlloc): Key {
    Key(s.teacher, s.subject)
  }

  /** The label `"subject (teacher)"` that counts towards an entry's target. */
  function TargetLabel(s: SubjectAlloc): Label {
    Session(s.subject, s.teacher)
  }

  function SubjectEntries(a: Allocation): (r: seq<Entry>)
    ensures |r| == |a.subjects|
    ensures forall j :: 0 <= j < |r| ==> r[j] == Entry(a.className, a.subjects[j])
  {
    seq(|a.subjects|, j requires 0 <= j < |a.subjects| => Entry(a.className, a.subjects[j]))
  }

  /** The pairs visited by `allocations.forEach(alloc => alloc.subjects.forEach(...))`, in visiting order. */
  function Entries(allocs: seq<Allocation>): (r: seq<Entry>)
    ensures forall k :: 0 <= k < |r| ==>
      exists i :: 0 <= i < |allocs| && r[k].className == allocs[i].className && r[k].sub in allocs[i].subjects
  {
    if allocs == [] then []
    else
      var r := SubjectEntries(allocs[0]) + Entries(allocs[1..]);
      assert forall k :: |allocs[0].subjects| <= k < |r| ==> r[k] == Entries(allocs[1..])[k - |allocs[0].subjects|];
      assert forall i :: 0 <= i < |allocs| - 1 ==> allocs[1..][i] == allocs[i + 1];
      r
  }

  /** Every subject entry of every allocation is visited. */
  lemma {:induction false} EntriesComplete(allocs: seq<Allocation>, i: int, j: int)
    requires 0 <= i < |allocs| && 0 <= j < |allocs[i].subjects|
    ensures Entry(allocs[i].className, allocs[i].subjects[j]) in Entries(allocs)
    decreases |allocs|
  {
    var here := SubjectEntries(allocs[0]);
    assert Entries(allocs) == here + Entries(allocs[1..]);
    if i == 0 {
      assert here[j] == Entry(allocs[0].className, allocs[0].subjects[j]);
    } else {
      assert allocs[1..][i - 1] == allocs[i];
      EntriesComplete(allocs[1..], i - 1, j);
    }
  }

  /** Number of cells of `row` equal to `l`. */
  function CountLabel(row: Row, l: Label): (n: nat)
    ensures n <= |row|
    ensures n == 0 <==> l !in row
  {
    if row == [] then 0 else (if row[0] == l then 1 else 0) + CountLabel(row[1..], l)
  }

  /** Cells of class `c` equal to `l`, over the given days (a repeated day
      counts twice). Auto-fill only counts once every row it reads is known to
      exist (`RowsPresent`); a missing row counts as none here. */
  function CountInClass(g: Grid, days: seq<Day>, c: ClassName, l: Label): (n: nat)
    ensures n == 0 <==> forall k :: 0 <= k < |days| && c in g && days[k] in g[c] ==> l !in g[c][days[k]]
    decreases |days|
  {
    if days == [] then 0
    else
      assert forall k :: 1 <= k < |days| ==> days[k] == days[1..][k - 1];
      (if c in g && days[0] in g[c] then CountLabel(g[c][days[0]], l) else 0) + CountInClass(g, days[1..], c, l)
  }

  /** `sub.periods - count` for one entry: its target minus the cells already holding exactly its label. */
  function NeedOf(setup: Setup, g: Grid, e: Entry): int {
    e.sub.periods - CountInClass(g, setup.days, e.className, TargetLabel(e.sub))
  }

  /** An entry's need never exceeds its periods, and equals them exactly
      when no counted row of its class holds its label. */
  lemma NeedOfSpec(setup: Setup, g: Grid, e: Entry)
    ensures NeedOf(setup, g, e) <= e.sub.periods
    ensures NeedOf(setup, g, e) == e.sub.periods <==>
      forall k :: 0 <= k < |setup.days| && e.className in g && setup.days[k] in g[e.className] ==>
        TargetLabel(e.sub) !in g[e.className][setup.days[k]]
  {
  }

  /** `reqs[key][c]`. */
  function Need(table: ReqTable, key: Key, c: ClassName): Option<int> {
    if key in table.values && c in table.values[key].values then Some(table.values[key].values[c]) else None
  }

  /** The requirement table after visiting `entries` in order; a later entry
      for the same class and key overwrites the earlier one's value. */
  function RequirementTable(setup: Setup, g: Grid, entries: seq<Entry>): (r: ReqTable)
    ensures WellFormedTable(r)
    decreases |entries|
  {
    if entries == [] then EmptyDict()
    else
      var prev := RequirementTable(setup, g, entries[..|entries| - 1]);
      var e := entries[|entries| - 1];
      var inner := if KeyOf(e.sub) in prev.values then prev.values[KeyOf(e.sub)] else EmptyDict();
      Put(prev, KeyOf(e.sub), Put(inner, e.className, NeedOf(setup, g, e)))
  }

  /** The requirement table of a grid and its allocations. */
  function RequirementsOf(setup: Setup, allocs: seq<Allocation>, g: Grid): ReqTable {
    RequirementTable(setup, g, Entries(allocs))
  }

  ghost predicate Matches(e: Entry, key: Key, c: ClassName) {
    KeyOf(e.sub) == key && e.className == c
  }

  /** Entry `i` is the last one in `entries` for class `c` and `key`. */
  ghost predicate LastMatch(entries: seq<Entry>, i: int, key: Key, c: ClassName) {
    && 0 <= i < |entries|
    && Matches(entries[i], key, c)
    && forall j :: i < j < |entries| ==> !Matches(entries[j], key, c)
  }

  /** The table's keys are distinct, and so are each key's classes. */
  ghost predicate WellFormedTable(table: ReqTable) {
    && Valid(table)
    && forall key :: key in table.values ==> Valid(table.values[key])
  }

  /** The table has a key exactly for the (teacher, subject) pairs that some entry names. */
  lemma RequirementsKeys(setup: Setup, g: Grid, entries: seq<Entry>, key: Key)
    ensures key in RequirementTable(setup, g, entries).values <==>
      exists i :: 0 <= i < |entries| && KeyOf(entries[i].sub) == key
  {
    TableKeysNamed(setup, g, entries, key);
    NamesKeyIff(entries, key);
  }

  /** Some entry of `entries` names `key`, looking from the last one back. */
  ghost predicate NamesKey(entries: seq<Entry>, key: Key)
    decreases |entries|
  {
    entries != [] && (KeyOf(entries[|entries| - 1].sub) == key || NamesKey(entries[..|entries| - 1], key))
  }

  lemma {:induction false} TableKeysNamed(setup: Setup, g: Grid, entries: seq<Entry>, key: Key)
    ensures key in RequirementTable(setup, g, entries).values <==> NamesKey(entries, key)
    decreases |entries|
  {
    if entries != [] {
      TableKeysStep(setup, g, entries, key);
      TableKeysNamed(setup, g, entries[..|entries| - 1], key);
    }
  }

  lemma {:induction false} NamesKeyIff(entries: seq<Entry>, key: Key)
    ensures NamesKey(entries, key) <==> exists i :: 0 <= i < |entries| && KeyOf(entries[i].sub) == key
    decreases |entries|
  {
    if entries != [] {
      var m := |entries| - 1;
      var pre := entries[..m];
      NamesKeyIff(pre, key);
      if NamesKey(pre, key) {
        var i :| 0 <= i < |pre| && KeyOf(pre[i].sub) == key;
        assert entries[i] == pre[i];
      } else if KeyOf(entries[m].sub) != key {
        forall i | 0 <= i < |entries| ensures KeyOf(entries[i].sub) != key {
          if i < m { assert entries[i] == pre[i]; }
        }
      }
    }
  }

  /** One more entry adds its own key to the table's keys and no other. */
  lemma TableKeysStep(setup: Setup, g: Grid, entries: seq<Entry>, key: Key)
    requires entries != []
    ensures key in RequirementTable(setup, g, entries).values <==>
      key in RequirementTable(setup, g, entries[..|entries| - 1]).values || key == KeyOf(entries[|entries| - 1].sub)
  {
  }

  /** The value a scan from the end finds: the need of the last entry for
      class `c` and `key`, if there is one. */
  function LastNeed(setup: Setup, g: Grid, entries: seq<Entry>, key: Key, c: ClassName): Option<int>
    decreases |entries|
  {
    if entries == [] then None
    else if KeyOf(entries[|entries| - 1].sub) == key && entries[|entries| - 1].className == c then
      Some(NeedOf(setup, g, entries[|entries| - 1]))
    else LastNeed(setup, g, entries[..|entries| - 1], key, c)
  }

  lemma {:induction false} TableIsLastNeed(setup: Setup, g: Grid, entries: seq<Entry>, key: Key, c: ClassName)
    ensures Need(RequirementTable(setup, g, entries), key, c) == LastNeed(setup, g, entries, key, c)
    decreases |entries|
  {
    if entries != [] {
      TableIsLastNeed(setup, g, entries[..|entries| - 1], key, c);
    }
  }

  lemma {:induction false} LastNeedDefined(setup: Setup, g: Grid, entries: seq<Entry>, key: Key, c: ClassName)
    ensures LastNeed(setup, g, entries, key, c).Some? <==> exists i :: 0 <= i < |entries| && Matches(entries[i], key, c)
    decreases |entries|
  {
    if entries != [] {
      var m := |entries| - 1;
      var pre := entries[..m];
      LastNeedDefined(setup, g, pre, key, c);
      if Matches(entries[m], key, c) {
      } else if LastNeed(setup, g, pre, key, c).Some? {
        var i :| 0 <= i < |pre| && Matches(pre[i], key, c);
        assert entries[i] == pre[i];
      } else {
        forall i | 0 <= i < |entries| ensures !Matches(entries[i], key, c) {
          if i < m { assert entries[i] == pre[i]; }
        }
      }
    }
  }

  lemma {:induction false} LastNeedIsLast(setup: Setup, g: Grid, entries: seq<Entry>, key: Key, c: ClassName, i: int)
    requires LastMatch(entries, i, key, c)
    ensures LastNeed(setup, g, entries, key, c) == Some(NeedOf(setup, g, entries[i]))
    decreases |entries|
  {
    var m := |entries| - 1;
    if i < m {
      var pre := entries[..m];
      assert !Matches(entries[m], key, c);
      assert pre[i] == entries[i];
      assert LastMatch(pre, i, key, c) by {
        forall j | i < j < |pre| ensures !Matches(pre[j], key, c) {
          assert pre[j] == entries[j];
        }
      }
      LastNeedIsLast(setup, g, pre, key, c, i);
    }
  }

  /** `reqs[key][c]` is defined exactly when some entry of class `c` has that key. */
  lemma {:induction false} RequirementsDefined(setup: Setup, g: Grid, entries: seq<Entry>, key: Key, c: ClassName)
    ensures Need(RequirementTable(setup, g, entries), key, c).Some? <==>
      exists i :: 0 <= i < |entries| && Matches(entries[i], key, c)
  {
    TableIsLastNeed(setup, g, entries, key, c);
    LastNeedDefined(setup, g, entries, key, c);
  }

  /** The requirement calculation as a pure read: `reqs[key][c]` equals the
      LAST entry of class `c` with that key's target minus the count of exact
      `"subject (teacher)"` matches in that class's grid. */
  lemma {:induction false} RequirementsNeed(setup: Setup, g: Grid, entries: seq<Entry>, key: Key, c: ClassName, i: int)
    requires LastMatch(entries, i, key, c)
    ensures Need(RequirementTable(setup, g, entries), key, c) == Some(NeedOf(setup, g, entries[i]))
  {
    TableIsLastNeed(setup, g, entries, key, c);
    LastNeedIsLast(setup, g, entries, key, c, i);
  }

  /** The visited entries are exactly the subject entries of the allocations. */
  ghost predicate VisitsAll(allocs: seq<Allocation>, entries: seq<Entry>) {
    && (forall k :: 0 <= k < |entries| ==>
      exists i :: 0 <= i < |allocs| && entries[k].className == allocs[i].className && entries[k].sub in allocs[i].subjects)
    && (forall i, j :: 0 <= i < |allocs| && 0 <= j < |allocs[i].subjects| ==>
      Entry(allocs[i].className, allocs[i].subjects[j]) in entries)
  }

  lemma EntriesVisitAll(allocs: seq<Allocation>)
    ensures VisitsAll(allocs, Entries(allocs))
  {
    forall i, j | 0 <= i < |allocs| && 0 <= j < |allocs[i].subjects|
      ensures Entry(allocs[i].className, allocs[i].subjects[j]) in Entries(allocs)
    {
      EntriesComplete(allocs, i, j);
    }
  }

  /** Over entries that visit all the allocations, some entry has a key
      exactly when some allocation's subject entry has it. */
  lemma EntryKeysAreAllocationKeys(allocs: seq<Allocation>, entries: seq<Entry>, key: Key)
    requires VisitsAll(allocs, entries)
    ensures (exists k :: 0 <= k < |entries| && KeyOf(entries[k].sub) == key) <==>
      exists i, j :: 0 <= i < |allocs| && 0 <= j < |allocs[i].subjects| && KeyOf(allocs[i].subjects[j]) == key
  {
    if exists k :: 0 <= k < |entries| && KeyOf(entries[k].sub) == key {
      var k :| 0 <= k < |entries| && KeyOf(entries[k].sub) == key;
      var i :| 0 <= i < |allocs| && entries[k].className == allocs[i].className && entries[k].sub in allocs[i].subjects;
      var j :| 0 <= j < |allocs[i].subjects| && allocs[i].subjects[j] == entries[k].sub;
    }
    if exists i, j :: 0 <= i < |allocs| && 0 <= j < |allocs[i].subjects| && KeyOf(allocs[i].subjects[j]) == key {
      var i, j :| 0 <= i < |allocs| && 0 <= j < |allocs[i].subjects| && KeyOf(allocs[i].subjects[j]) == key;
      var k :| 0 <= k < |entries| && entries[k] == Entry(allocs[i].className, allocs[i].subjects[j]);
    }
  }

  /** Over entries that visit all the allocations, some entry matches a key
      and class exactly when some allocation of the class has a subject entry
      with the key. */
  lemma EntryMatchesAreAllocationMatches(allocs: seq<Allocation>, entries: seq<Entry>, key: Key, c: ClassName)
    requires VisitsAll(allocs, entries)
    ensures (exists k :: 0 <= k < |entries| && Matches(entries[k], key, c)) <==>
      exists i, j :: 0 <= i < |allocs| && 0 <= j < |allocs[i].subjects| && allocs[i].className == c && KeyOf(allocs[i].subjects[j]) == key
  {
    if exists k :: 0 <= k < |entries| && Matches(entries[k], key, c) {
      var k :| 0 <= k < |entries| && Matches(entries[k], key, c);
      var i :| 0 <= i < |allocs| && entries[k].className == allocs[i].className && entries[k].sub in allocs[i].subjects;
      var j :| 0 <= j < |allocs[i].subjects| && allocs[i].subjects[j] == entries[k].sub;
    }
    if exists i, j :: 0 <= i < |allocs| && 0 <= j < |allocs[i].subjects| && allocs[i].className == c && KeyOf(allocs[i].subjects[j]) == key {
      var i, j :| 0 <= i < |allocs| && 0 <= j < |allocs[i].subjects| && allocs[i].className == c && KeyOf(allocs[i].subjects[j]) == key;
      var k :| 0 <= k < |entries| && entries[k] == Entry(allocs[i].className, allocs[i].subjects[j]);
      assert Matches(entries[k], key, c);
    }
  }

  /** A key is in the requirement table exactly when some allocation has a
      subject entry with that teacher and subject. */
  lemma {:induction false} AllocationKeys(setup: Setup, allocs: seq<Allocation>, g: Grid, key: Key)
    ensures key in RequirementsOf(setup, allocs, g).values <==>
      exists i, j :: 0 <= i < |allocs| && 0 <= j < |allocs[i].subjects| && KeyOf(allocs[i].subjects[j]) == key
  {
    var entries := Entries(allocs);
    RequirementsKeys(setup, g, entries, key);
    EntriesVisitAll(allocs);
    EntryKeysAreAllocationKeys(allocs, entries, key);
  }

  /** `reqs[key][c]` is defined exactly when an allocation of class `c` has a
      subject entry with that key. */
  lemma {:induction false} AllocationNeeds(setup: Setup, allocs: seq<Allocation>, g: Grid, key: Key, c: ClassName)
    ensures Need(RequirementsOf(setup, allocs, g), key, c).Some? <==>
      exists i, j :: 0 <= i < |allocs| && 0 <= j < |allocs[i].subjects| && allocs[i].className == c && KeyOf(allocs[i].subjects[j]) == key
  {
    var entries := Entries(allocs);
    RequirementsDefined(setup, g, entries, key, c);
    EntriesVisitAll(allocs);
    EntryMatchesAreAllocationMatches(allocs, entries, key, c);
  }
}
