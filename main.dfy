/**
 * The task list held by the `Main` component: a sequence of tasks plus the
 * title, description and search inputs, and the handlers that rebuild them.
 * Each handler is one atomic state change; the new task list it installs is
 * computed by a pure function over the old one.
 */
module Main {
  import opened Text
  import opened Seqs

  /** One row of the list; `id` is the creation timestamp, which need not be unique. */
  datatype Task = Task(id: int, title: string, description: string, completed: bool)

  // ---------------------------------------------------------------------------
  // Deleting: keep every task whose id differs from the given one

  function WithoutId(tasks: seq<Task>, taskId: int): (r: seq<Task>)
    ensures |r| <= |tasks|
    ensures IsSubseq(r, tasks)
    ensures forall t :: t in r <==> t in tasks && t.id != taskId
    ensures forall t :: multiset(r)[t] == if t.id == taskId then 0 else multiset(tasks)[t]
  {
    Filter(tasks, (t: Task) => t.id != taskId)
  }

  /** Deleting an id that no task carries leaves the list as it was. */
  lemma DeleteAbsent(tasks: seq<Task>, taskId: int)
    requires forall t :: t in tasks ==> t.id != taskId
    ensures WithoutId(tasks, taskId) == tasks
  {
    FilterAll(tasks, (t: Task) => t.id != taskId);
  }

  /** A second delete of the same id is a no-op. */
  lemma DeleteIdempotent(tasks: seq<Task>, taskId: int)
    ensures WithoutId(WithoutId(tasks, taskId), taskId) == WithoutId(tasks, taskId)
  {
    DeleteAbsent(WithoutId(tasks, taskId), taskId);
  }

  /** Deleting an id some task carries shortens the list. */
  lemma DeletePresentShrinks(tasks: seq<Task>, taskId: int, t: Task)
    requires t in tasks && t.id == taskId
    ensures |WithoutId(tasks, taskId)| < |tasks|
  {
    FilterDrops(tasks, (t: Task) => t.id != taskId, t);
  }

  /** The number of tasks carrying `taskId`. */
  function CountId(tasks: seq<Task>, taskId: int): nat {
    if tasks == [] then 0
    else (if tasks[0].id == taskId then 1 else 0) + CountId(tasks[1..], taskId)
  }

  /**
   * A delete removes exactly as many entries as carry the id: one entry when the
   * id is unique, none when it is absent, all of them when ids collide.
   */
  lemma {:induction false} DeleteRemovesCount(tasks: seq<Task>, taskId: int)
    ensures |WithoutId(tasks, taskId)| == |tasks| - CountId(tasks, taskId)
  {
    if tasks != [] {
      DeleteRemovesCount(tasks[1..], taskId);
    }
  }

  // ---------------------------------------------------------------------------
  // Completing: flip `completed` on every task carrying the given id

  function Toggle(t: Task, taskId: int): Task {
    if t.id == taskId then t.(completed := !t.completed) else t
  }

  /**
   * Same length and order; every task keeps its id, title and description;
   * `completed` flips exactly on the tasks whose id is `taskId`.
   */
  function Toggled(tasks: seq<Task>, taskId: int): (r: seq<Task>)
    ensures |r| == |tasks|
    ensures forall i :: 0 <= i < |tasks| ==>
              && r[i].id == tasks[i].id
              && r[i].title == tasks[i].title
              && r[i].description == tasks[i].description
              && r[i].completed == (tasks[i].completed != (tasks[i].id == taskId))
  {
    Map(tasks, (t: Task) => Toggle(t, taskId))
  }

  /** Completing the same id twice restores the original list. */
  lemma ToggleTwice(tasks: seq<Task>, taskId: int)
    ensures Toggled(Toggled(tasks, taskId), taskId) == tasks
  {
  }

  /** Completing an id that no task carries leaves the list as it was. */
  lemma ToggleAbsent(tasks: seq<Task>, taskId: int)
    requires forall t :: t in tasks ==> t.id != taskId
    ensures Toggled(tasks, taskId) == tasks
  {
  }

  // ---------------------------------------------------------------------------
  // Searching: keep the tasks whose title contains the query, ignoring case

  /** The search callback: the lower-cased query occurs in the lower-cased title. */
  predicate MatchesQuery(t: Task, query: string): (b: bool)
    ensures b <==> Occurs(ToLower(t.title), ToLower(query))
  {
    IncludesIff(ToLower(t.title), ToLower(query));
    Includes(ToLower(t.title), ToLower(query))
  }

  /**
   * The tasks whose lower-cased title contains the lower-cased query, in list order;
   * a task's description and completion play no part.
   */
  function Searched(tasks: seq<Task>, query: string): (r: seq<Task>)
    ensures IsSubseq(r, tasks)
    ensures forall t :: t in r <==> t in tasks && Occurs(ToLower(t.title), ToLower(query))
    ensures forall t :: multiset(r)[t] == if MatchesQuery(t, query) then multiset(tasks)[t] else 0
  {
    Filter(tasks, (t: Task) => MatchesQuery(t, query))
  }

  /** The empty query shows every task, in order. */
  lemma SearchEmptyQuery(tasks: seq<Task>)
    ensures Searched(tasks, "") == tasks
  {
    FilterAll(tasks, (t: Task) => MatchesQuery(t, ""));
  }

  /** Queries that differ only in the case of their letters select the same tasks. */
  lemma SearchIgnoresCase(tasks: seq<Task>, query: string, other: string)
    requires ToLower(query) == ToLower(other)
    ensures Searched(tasks, query) == Searched(tasks, other)
  {
    FilterCongruent(tasks, (t: Task) => MatchesQuery(t, query), (t: Task) => MatchesQuery(t, other));
  }

  /** Searching the search result again with the same query changes nothing. */
  lemma SearchIdempotent(tasks: seq<Task>, query: string)
    ensures Searched(Searched(tasks, query), query) == Searched(tasks, query)
  {
    FilterIdempotent(tasks, (t: Task) => MatchesQuery(t, query));
  }

  /**
   * The Delete button of a task shown in the search result always removes it:
   * the list gets shorter and no task with that id is left.
   */
  lemma DeleteShownTask(tasks: seq<Task>, query: string, t: Task)
    requires t in Searched(tasks, query)
    ensures |WithoutId(tasks, t.id)| < |tasks|
    ensures forall u :: u in WithoutId(tasks, t.id) ==> u.id != t.id
  {
    DeletePresentShrinks(tasks, t.id, t);
  }

  // ---------------------------------------------------------------------------
  // Adding

  /** The task `addingTask` appends: the fresh id, the inputs as typed, not completed. */
  function NewTask(id: int, title: string, description: string): Task {
    Task(id, title, description, false)
  }

  /** The add is rejected when either input is empty once trimmed. */
  predicate AddRejected(title: string, description: string) {
    IsBlank(title) || IsBlank(description)
  }

  /** A rejected add is exactly an input made of white space only. */
  lemma AddRejectedIff(title: string, description: string)
    ensures AddRejected(title, description) <==> AllWhiteSpace(title) || AllWhiteSpace(description)
  {
    BlankIff(title);
    BlankIff(description);
  }

  /** Every task has a non-blank title and description, as `addingTask` only creates such tasks. */
  ghost predicate AllFilled(tasks: seq<Task>) {
    forall t :: t in tasks ==> !IsBlank(t.title) && !IsBlank(t.description)
  }

  /** Completing only touches `completed`, so a list of filled-in tasks stays filled in. */
  lemma ToggledKeepsFilled(tasks: seq<Task>, taskId: int)
    ensures AllFilled(tasks) ==> AllFilled(Toggled(tasks, taskId))
  {
  }

  /** Appending a task with a non-blank title and description keeps every task filled in. */
  lemma AppendKeepsFilled(tasks: seq<Task>, t: Task)
    requires !IsBlank(t.title) && !IsBlank(t.description)
    ensures AllFilled(tasks) ==> AllFilled(tasks + [t])
  {
  }

  // ---------------------------------------------------------------------------
  // The component's state and handlers

  class TaskManager {
    var tasks: seq<Task>
    var title: string
    var description: string
    var searchQuery: string

    /** Mounting: an empty list and empty inputs (loading from storage is not modelled). */
    constructor ()
      ensures tasks == [] && title == "" && description == "" && searchQuery == ""
      ensures AllFilled(tasks)
    {
      tasks, title, description, searchQuery := [], "", "", "";
    }

    /** Typing in the title input. */
    method SetTitle(value: string)
      modifies this
      ensures title == value
      ensures tasks == old(tasks) && description == old(description) && searchQuery == old(searchQuery)
    {
      title := value;
    }

    /** Typing in the description input. */
    method SetDescription(value: string)
      modifies this
      ensures description == value
      ensures tasks == old(tasks) && title == old(title) && searchQuery == old(searchQuery)
    {
      description := value;
    }

    /** Typing in the search input. */
    method SetSearchQuery(value: string)
      modifies this
      ensures searchQuery == value
      ensures tasks == old(tasks) && title == old(title) && description == old(description)
    {
      searchQuery := value;
    }

    /**
     * The "Add Task" button, with `now` standing for `Date.now()`. A blank input
     * changes nothing; otherwise the new task goes at the end and both inputs clear.
     */
    method AddingTask(now: int)
      modifies this
      ensures searchQuery == old(searchQuery)
      ensures AddRejected(old(title), old(description)) ==>
                tasks == old(tasks) && title == old(title) && description == old(description)
      ensures !AddRejected(old(title), old(description)) ==>
                && tasks == old(tasks) + [NewTask(now, old(title), old(description))]
                && |tasks| == |old(tasks)| + 1
                && title == "" && description == ""
      ensures old(AllFilled(tasks)) ==> AllFilled(tasks)
    {
      if AddRejected(title, description) {
        return;
      }
      var newTask := NewTask(now, title, description);
      assert !IsBlank(newTask.title) && !IsBlank(newTask.description);
      AppendKeepsFilled(tasks, newTask);
      tasks := tasks + [newTask];
      title := "";
      description := "";
    }

    /** The Delete button of task `taskId`: every task with that id goes. */
    method DeleteTask(taskId: int)
      modifies this
      ensures tasks == WithoutId(old(tasks), taskId)
      ensures title == old(title) && description == old(description) && searchQuery == old(searchQuery)
      ensures old(AllFilled(tasks)) ==> AllFilled(tasks)
    {
      tasks := WithoutId(tasks, taskId);
    }

    /** The Complete/Undo button of task `taskId`. */
    method CompletedTask(taskId: int)
      modifies this
      ensures tasks == Toggled(old(tasks), taskId)
      ensures title == old(title) && description == old(description) && searchQuery == old(searchQuery)
      ensures old(AllFilled(tasks)) ==> AllFilled(tasks)
    {
      ToggledKeepsFilled(tasks, taskId);
      tasks := Toggled(tasks, taskId);
    }

    /** The list shown under the search box; computing it changes no state. */
    method SearchedTasks() returns (shown: seq<Task>)
      ensures shown == Searched(tasks, searchQuery)
    {
      shown := Searched(tasks, searchQuery);
    }
  }

  /**
   * A session as a user would drive it, checked against the handlers' contracts:
   * add a task, complete it, see it under the empty search, delete it.
   */
  method Session(now: int, title: string, description: string)
    requires !AllWhiteSpace(title) && !AllWhiteSpace(description)
  {
    var m := new TaskManager();
    m.SetTitle(title);
    m.SetDescription(description);
    AddRejectedIff(title, description);
    m.AddingTask(now);
    assert m.tasks == [Task(now, title, description, false)];
    assert m.title == "" && m.description == "";

    m.CompletedTask(now);
    assert m.tasks == [Task(now, title, description, true)];

    m.SetSearchQuery("");
    var shown := m.SearchedTasks();
    SearchEmptyQuery(m.tasks);
    assert shown == m.tasks;

    m.DeleteTask(now);
    assert m.tasks == [];
    shown := m.SearchedTasks();
    assert shown == [];
  }
}
