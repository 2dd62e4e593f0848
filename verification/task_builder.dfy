/** The second phase of auto-fill: splitting each (teacher, subject) key's
    class needs greedily into atomic tasks. */
module TaskBuilder {
  import opened Timetable
  import opened Dicts
  import opened Requirements

  /** One key's `classNeeds`: class -> remaining count, in insertion order. */
  type Needs = Dict<ClassName, int>

  function Max(a: int, b: int): int {
    if a < b then b else a
  }

  /** The classes of `order` whose count in `values` is above `floor`, in order. */
  function Above(order: seq<ClassName>, values: map<ClassName, int>, floor: int): (r: seq<ClassName>)
    ensures forall c :: c in r <==> c in order && c in values && values[c] > floor
  {
    if order == [] then []
    else
      var rest := Above(order[1..], values, floor);
      if order[0] in values && values[order[0]] > floor then [order[0]] + rest else rest
  }

  /** `max(0, Math.max(...Object.values(classNeeds)))`: the number of rounds. */
  function RoundCount(order: seq<ClassName>, values: map<ClassName, int>): (n: nat)
    ensures forall c :: c in order && c in values ==> values[c] <= n
    ensures n > 0 ==> exists c :: c in order && c in values && values[c] == n
  {
    if order == [] then 0
    else
      var rest := RoundCount(order[1..], values);
      if order[0] in values then
        var n := Max(values[order[0]], rest);
        assert n > 0 && n != rest ==> values[order[0]] == n;
        n
      else rest
  }

  /** One round's bookkeeping: every class still in need has one fewer to go. */
  function Decrement(rem: Needs): (r: Needs)
    ensures r.order == rem.order && r.values.Keys == rem.values.Keys
    ensures forall c :: c in rem.values ==> r.values[c] == if rem.values[c] > 0 then rem.values[c] - 1 else rem.values[c]
  {
    Dict(rem.order, map c | c in rem.values :: if rem.values[c] > 0 then rem.values[c] - 1 else rem.values[c])
  }

  /** `n` rounds of `for(let i=0; i<maxNeeded; i++)`: each round takes every
      class whose remaining count is positive, decrements it, and emits a task
      when it took at least one class. */
  function Rounds(t: Teacher, s: Subject, rem: Needs, n: nat): seq<Task>
    decreases n
  {
    if n == 0 then []
    else
      var participants := Above(rem.order, rem.values, 0);
      var rest := Rounds(t, s, Decrement(rem), n - 1);
      if |participants| > 0 then [Task(t, s, participants)] + rest else rest
  }

  /** The tasks of one key of the requirement table. */
  function TasksForKey(key: Key, rem: Needs): (r: seq<Task>)
    ensures forall i :: 0 <= i < |r| ==> r[i].teacher == key.teacher && r[i].subject == key.subject && |r[i].classes| > 0
  {
    RoundsKey(key.teacher, key.subject, rem, RoundCount(rem.order, rem.values));
    Rounds(key.teacher, key.subject, rem, RoundCount(rem.order, rem.values))
  }

  /** The tasks of keys `keys` of the table, block after block. */
  function TasksOfKeys(keys: seq<Key>, table: ReqTable): (r: seq<Task>)
    ensures forall i :: 0 <= i < |r| ==>
      var key := Key(r[i].teacher, r[i].subject);
      key in keys && key in table.values && |r[i].classes| > 0
    decreases |keys|
  {
    if keys == [] then []
    else
      var here := if keys[0] in table.values then TasksForKey(keys[0], table.values[keys[0]]) else [];
      var rest := TasksOfKeys(keys[1..], table);
      assert forall i :: |here| <= i < |here + rest| ==> (here + rest)[i] == rest[i - |here|];
      assert forall k :: k in keys[1..] ==> k in keys;
      here + rest
  }

  /** `Object.keys(reqs).forEach(...)`: every key's tasks, in key order. */
  function BuildTasks(table: ReqTable): (r: seq<Task>)
    ensures forall i :: 0 <= i < |r| ==> Key(r[i].teacher, r[i].subject) in table.values && |r[i].classes| > 0
  {
    TasksOfKeys(table.order, table)
  }

  /** How many of `tasks` class `c` takes part in. */
  function Occurrences(tasks: seq<Task>, c: ClassName): nat {
    if tasks == [] then 0 else (if c in tasks[0].classes then 1 else 0) + Occurrences(tasks[1..], c)
  }

  /** The tasks of `tasks` for `key`, in order. */
  function TasksWithKey(tasks: seq<Task>, key: Key): seq<Task> {
    if tasks == [] then []
    else
      var rest := TasksWithKey(tasks[1..], key);
      if tasks[0].teacher == key.teacher && tasks[0].subject == key.subject then [tasks[0]] + rest else rest
  }

  /** The value a class's count is taken to have: its entry, or 0 when absent. */
  function CountOf(values: map<ClassName, int>, c: ClassName): int {
    if c in values then values[c] else 0
  }

  lemma {:induction false} AboveAfterDecrement(order: seq<ClassName>, rem: Needs, floor: nat)
    ensures Above(order, Decrement(rem).values, floor) == Above(order, rem.values, floor + 1)
    decreases |order|
  {
    if order != [] {
      AboveAfterDecrement(order[1..], rem, floor);
    }
  }

  lemma {:induction false} RoundCountAfterDecrement(order: seq<ClassName>, rem: Needs)
    ensures RoundCount(order, Decrement(rem).values) == Max(0, RoundCount(order, rem.values) - 1)
    decreases |order|
  {
    if order != [] {
      RoundCountAfterDecrement(order[1..], rem);
    }
  }

  /** The closed form of `n` rounds: round `i` takes the classes whose count exceeds `i`. */
  function RoundTasks(t: Teacher, s: Subject, order: seq<ClassName>, values: map<ClassName, int>, n: nat): (r: seq<Task>)
    ensures |r| == n
    ensures forall i :: 0 <= i < n ==> r[i] == Task(t, s, Above(order, values, i))
  {
    seq(n, i requires 0 <= i < n => Task(t, s, Above(order, values, i)))
  }

  lemma {:induction false} RoundsClosedForm(t: Teacher, s: Subject, rem: Needs, n: nat)
    requires n <= RoundCount(rem.order, rem.values)
    ensures Rounds(t, s, rem, n) == RoundTasks(t, s, rem.order, rem.values, n)
    decreases n
  {
    if n > 0 {
      var d := Decrement(rem);
      var first := Task(t, s, Above(rem.order, rem.values, 0));
      RoundCountAfterDecrement(rem.order, rem);
      RoundsClosedForm(t, s, d, n - 1);
      assert Rounds(t, s, d, n - 1) == RoundTasks(t, s, rem.order, d.values, n - 1);
      RoundsCons(t, s, rem, n);
      ClosedFormStep(t, s, rem, n);
      assert Rounds(t, s, rem, n) == [first] + RoundTasks(t, s, rem.order, d.values, n - 1);
    }
  }

  /** A round with participants emits one task before the remaining rounds. */
  lemma RoundsCons(t: Teacher, s: Subject, rem: Needs, n: nat)
    requires 0 < n <= RoundCount(rem.order, rem.values)
    ensures Rounds(t, s, rem, n) == [Task(t, s, Above(rem.order, rem.values, 0))] + Rounds(t, s, Decrement(rem), n - 1)
  {
    var c :| c in rem.order && c in rem.values && rem.values[c] == RoundCount(rem.order, rem.values);
    assert c in Above(rem.order, rem.values, 0);
  }

  lemma ClosedFormStep(t: Teacher, s: Subject, rem: Needs, n: nat)
    requires n > 0
    ensures [Task(t, s, Above(rem.order, rem.values, 0))] + RoundTasks(t, s, rem.order, Decrement(rem).values, n - 1)
      == RoundTasks(t, s, rem.order, rem.values, n)
  {
    var r := [Task(t, s, Above(rem.order, rem.values, 0))] + RoundTasks(t, s, rem.order, Decrement(rem).values, n - 1);
    forall i | 1 <= i < n ensures r[i] == Task(t, s, Above(rem.order, rem.values, i)) {
      AboveAfterDecrement(rem.order, rem, i - 1);
    }
  }

  /** Each class takes part in as many rounds as its remaining need, capped by the number of rounds. */
  lemma {:induction false} RoundsOccurrences(t: Teacher, s: Subject, rem: Needs, n: nat, c: ClassName)
    requires Valid(rem)
    ensures Occurrences(Rounds(t, s, rem, n), c) == if CountOf(rem.values, c) <= 0 then 0 else if CountOf(rem.values, c) < n then CountOf(rem.values, c) else n
    decreases n
  {
    if n > 0 {
      var participants := Above(rem.order, rem.values, 0);
      var rest := Rounds(t, s, Decrement(rem), n - 1);
      RoundsOccurrences(t, s, Decrement(rem), n - 1, c);
      if |participants| > 0 {
        assert Rounds(t, s, rem, n)[1..] == rest;
      }
    }
  }

  /** The task builder for one (teacher, subject) key: it emits exactly
      max(0, maxNeeded) tasks, all for that key and none empty; task `i` takes
      exactly the classes whose need exceeds `i`, so each later task's classes
      are among the earlier one's, and each class takes part in exactly
      max(0, need) tasks. */
  lemma {:induction false} TasksForKeySpec(key: Key, rem: Needs)
    requires Valid(rem)
    ensures var r := TasksForKey(key, rem);
      && |r| == RoundCount(rem.order, rem.values)
      && (forall i :: 0 <= i < |r| ==> r[i].teacher == key.teacher && r[i].subject == key.subject && |r[i].classes| > 0)
      && (forall i, c :: 0 <= i < |r| ==> (c in r[i].classes <==> c in rem.values && rem.values[c] > i))
      && (forall i, j, c :: 0 <= i <= j < |r| && c in r[j].classes ==> c in r[i].classes)
      && (forall c :: Occurrences(r, c) == Max(0, CountOf(rem.values, c)))
  {
    var n := RoundCount(rem.order, rem.values);
    var r := TasksForKey(key, rem);
    RoundsClosedForm(key.teacher, key.subject, rem, n);
    forall i | 0 <= i < |r| ensures |r[i].classes| > 0 {
      var c :| c in rem.order && c in rem.values && rem.values[c] == n;
      assert c in r[i].classes;
    }
    forall c ensures Occurrences(r, c) == Max(0, CountOf(rem.values, c)) {
      RoundsOccurrences(key.teacher, key.subject, rem, n, c);
    }
  }

  /** Over the whole task list, a key's tasks are exactly that key's block. */
  lemma {:induction false} TasksOfKeysWithKey(keys: seq<Key>, table: ReqTable, key: Key)
    requires Distinct(keys)
    ensures TasksWithKey(TasksOfKeys(keys, table), key) ==
      if key in keys && key in table.values then TasksForKey(key, table.values[key]) else []
    decreases |keys|
  {
    if keys != [] {
      var here := if keys[0] in table.values then TasksForKey(keys[0], table.values[keys[0]]) else [];
      TasksOfKeysWithKey(keys[1..], table, key);
      WithKeyAppend(here, TasksOfKeys(keys[1..], table), key);
      if keys[0] in table.values {
        if keys[0] == key {
          WithKeyAll(here, key);
          assert key !in keys[1..];
        } else {
          WithKeyNone(here, key);
        }
      }
    }
  }

  /** Every round is a task of the key with at least one class. */
  lemma {:induction false} RoundsKey(t: Teacher, s: Subject, rem: Needs, n: nat)
    ensures forall i :: 0 <= i < |Rounds(t, s, rem, n)| ==>
      Rounds(t, s, rem, n)[i].teacher == t && Rounds(t, s, rem, n)[i].subject == s && |Rounds(t, s, rem, n)[i].classes| > 0
    decreases n
  {
    if n > 0 {
      RoundsKey(t, s, Decrement(rem), n - 1);
    }
  }

  lemma {:induction false} WithKeyAppend(a: seq<Task>, b: seq<Task>, key: Key)
    ensures TasksWithKey(a + b, key) == TasksWithKey(a, key) + TasksWithKey(b, key)
    decreases |a|
  {
    if a == [] {
      assert a + b == b;
    } else {
      assert (a + b)[1..] == a[1..] + b;
      WithKeyAppend(a[1..], b, key);
    }
  }

  lemma {:induction false} WithKeyAll(a: seq<Task>, key: Key)
    requires forall i :: 0 <= i < |a| ==> a[i].teacher == key.teacher && a[i].subject == key.subject
    ensures TasksWithKey(a, key) == a
    decreases |a|
  {
    if a != [] {
      WithKeyAll(a[1..], key);
    }
  }

  lemma {:induction false} WithKeyNone(a: seq<Task>, key: Key)
    requires forall i :: 0 <= i < |a| ==> a[i].teacher != key.teacher || a[i].subject != key.subject
    ensures TasksWithKey(a, key) == []
    decreases |a|
  {
    if a != [] {
      WithKeyNone(a[1..], key);
    }
  }

  /** The tasks of a whole requirement table, seen per key: a key of the
      table gets exactly its own block of tasks, any other key none. */
  lemma {:induction false} BuildTasksPerKey(table: ReqTable, key: Key)
    requires WellFormedTable(table)
    ensures TasksWithKey(BuildTasks(table), key) ==
      if key in table.values then TasksForKey(key, table.values[key]) else []
  {
    TasksOfKeysWithKey(table.order, table, key);
  }

  /** The task list is empty exactly when no class needs another session of any key. */
  lemma {:induction false} BuildTasksEmpty(table: ReqTable)
    requires WellFormedTable(table)
    ensures BuildTasks(table) == [] <==>
      forall key, c :: key in table.values && c in table.values[key].values ==> table.values[key].values[c] <= 0
  {
    TasksOfKeysEmpty(table.order, table);
  }

  lemma {:induction false} TasksOfKeysEmpty(keys: seq<Key>, table: ReqTable)
    requires WellFormedTable(table)
    requires forall k :: k in keys ==> k in table.values
    ensures TasksOfKeys(keys, table) == [] <==>
      forall key, c :: key in keys && c in table.values[key].values ==> table.values[key].values[c] <= 0
    decreases |keys|
  {
    if keys != [] {
      var k := keys[0];
      var rem := table.values[k];
      TasksOfKeysEmpty(keys[1..], table);
      TasksForKeySpec(k, rem);
      if RoundCount(rem.order, rem.values) > 0 {
        var c :| c in rem.order && c in rem.values && rem.values[c] == RoundCount(rem.order, rem.values);
      } else {
        forall c | c in rem.values ensures rem.values[c] <= 0 {
          assert c in rem.order;
        }
      }
    }
  }
}
