/**
 The per-task rotation state of the widget and the merge of the configured
 task list with a previously persisted name-to-state mapping
 (`FlipperCore.initializeTaskStates`).
 */
module TaskStates {
  import opened Options

  /** A point in time; the clock itself is outside the model. */
  type Timestamp = int

  /** A configured chore: its unique name, its rotation of people, optional per-person colours. */
  datatype Task = Task(name: string, people: seq<string>, colors: Option<seq<string>>)

  /**
   The rotation state of one task. `people` is the snapshot taken when the
   state was created; `currentIndex` is an unbounded integer because a
   persisted state may hold any number.
   */
  datatype TaskState = TaskState(
    currentIndex: int,
    lastPerson: Option<string>,
    lastFlipTime: Option<Timestamp>,
    people: seq<string>)

  type StateMapping = map<string, TaskState>

  /**
   The state given to a task that has no persisted entry: its rotation
   starts at the first person and no flip is recorded yet.
   */
  function Fresh(task: Task): (s: TaskState)
    ensures s.people == task.people
    ensures s.currentIndex == 0 && s.lastPerson == None && s.lastFlipTime == None
    ensures WellFormed(s) <==> |task.people| > 0
  {
    TaskState(0, None, None, task.people)
  }

  /** The rotation pointer designates one of the snapshot's people. */
  predicate InRange(s: TaskState) {
    0 <= s.currentIndex < |s.people|
  }

  /** In range, and a last person is recorded exactly when a last flip time is. */
  predicate WellFormed(s: TaskState) {
    && InRange(s)
    && (s.lastPerson.None? <==> s.lastFlipTime.None?)
  }

  predicate WellFormedMapping(m: StateMapping) {
    forall name :: name in m ==> WellFormed(m[name])
  }

  /** The names of the configured tasks. */
  function Names(tasks: seq<Task>): set<string>
    decreases |tasks|
  {
    if |tasks| == 0 then {} else Names(tasks[..|tasks| - 1]) + {tasks[|tasks| - 1].name}
  }

  /** A name is configured exactly when some task in the list carries it. */
  lemma {:induction false} NamesMembership(tasks: seq<Task>, name: string)
    ensures name in Names(tasks) <==> exists i :: 0 <= i < |tasks| && tasks[i].name == name
    decreases |tasks|
  {
    if |tasks| > 0 {
      var prefix := tasks[..|tasks| - 1];
      NamesMembership(prefix, name);
      if name in Names(prefix) {
        var i :| 0 <= i < |prefix| && prefix[i].name == name;
        assert tasks[i].name == name;
      }
      if exists i :: 0 <= i < |tasks| && tasks[i].name == name {
        var i :| 0 <= i < |tasks| && tasks[i].name == name;
        if i < |tasks| - 1 {
          assert prefix[i].name == name;
        }
      }
    }
  }

  /** `tasks[i]` is the last task in the list that carries its name. */
  predicate LastWithName(tasks: seq<Task>, i: int) {
    && 0 <= i < |tasks|
    && forall j :: i < j < |tasks| ==> tasks[j].name != tasks[i].name
  }

  /**
   The merge, one task at a time in list order: a name with a persisted
   entry keeps that entry, any other name gets a fresh state (a later task
   with the same name overwrites an earlier one), and nothing else is kept.
   */
  function InitializeTaskStates(tasks: seq<Task>, existing: StateMapping): (r: StateMapping)
    ensures r.Keys == Names(tasks)
    ensures forall i :: 0 <= i < |tasks| ==> tasks[i].name in r
    ensures forall name :: name in r && name in existing ==> r[name] == existing[name]
    ensures forall i :: LastWithName(tasks, i) && tasks[i].name !in existing ==>
              r[tasks[i].name] == Fresh(tasks[i])
    decreases |tasks|
  {
    if |tasks| == 0 then map[]
    else
      var last := tasks[|tasks| - 1];
      var prefix := InitializeTaskStates(tasks[..|tasks| - 1], existing);
      LastWithNameInPrefix(tasks);
      prefix[last.name := if last.name in existing then existing[last.name] else Fresh(last)]
  }

  /** A last occurrence before the end of the list is a last occurrence in the list without its last task. */
  lemma LastWithNameInPrefix(tasks: seq<Task>)
    requires |tasks| > 0
    ensures forall i :: 0 <= i < |tasks| - 1 ==> tasks[..|tasks| - 1][i] == tasks[i]
    ensures forall i :: LastWithName(tasks, i) && i < |tasks| - 1 ==>
              LastWithName(tasks[..|tasks| - 1], i) && tasks[i].name != tasks[|tasks| - 1].name
  {
  }

  /** Stale persisted entries, whose task is no longer configured, are dropped. */
  lemma StaleEntriesDropped(tasks: seq<Task>, existing: StateMapping, name: string)
    requires forall i :: 0 <= i < |tasks| ==> tasks[i].name != name
    ensures name !in InitializeTaskStates(tasks, existing)
  {
    NamesMembership(tasks, name);
  }

  /** Every configured name ends up either with its persisted entry or with a fresh one. */
  lemma EntryOrigin(tasks: seq<Task>, existing: StateMapping, i: int)
    requires 0 <= i < |tasks|
    ensures var r := InitializeTaskStates(tasks, existing);
            var name := tasks[i].name;
            name in r
            && (name in existing ==> r[name] == existing[name])
            && (name !in existing ==> exists j :: LastWithName(tasks, j) && tasks[j].name == name
                                                   && r[name] == Fresh(tasks[j]))
  {
    var name := tasks[i].name;
    if name !in existing {
      var j := LastIndexOf(tasks, i);
      assert LastWithName(tasks, j) && tasks[j].name == name;
    }
  }

  /** The last position in the list carrying the same name as `tasks[i]`. */
  function LastIndexOf(tasks: seq<Task>, i: int): (j: int)
    requires 0 <= i < |tasks|
    ensures i <= j && LastWithName(tasks, j) && tasks[j].name == tasks[i].name
    decreases |tasks| - i
  {
    if exists k :: i < k < |tasks| && tasks[k].name == tasks[i].name then
      var k :| i < k < |tasks| && tasks[k].name == tasks[i].name;
      LastIndexOf(tasks, k)
    else i
  }

  /** Merging a second time against the first merge's own output changes nothing. */
  lemma InitializeIdempotent(tasks: seq<Task>, existing: StateMapping)
    ensures var once := InitializeTaskStates(tasks, existing);
            InitializeTaskStates(tasks, once) == once
  {
  }

  /**
   Well-formed persisted entries and non-empty rotations give a well-formed
   mapping: every pointer in range, last person and last flip time set together.
   */
  lemma InitializeWellFormed(tasks: seq<Task>, existing: StateMapping)
    requires WellFormedMapping(existing)
    requires forall i :: 0 <= i < |tasks| ==> |tasks[i].people| > 0
    ensures WellFormedMapping(InitializeTaskStates(tasks, existing))
  {
    var r := InitializeTaskStates(tasks, existing);
    forall name | name in r
      ensures WellFormed(r[name])
    {
      NamesMembership(tasks, name);
      var i :| 0 <= i < |tasks| && tasks[i].name == name;
      EntryOrigin(tasks, existing, i);
    }
  }
}
