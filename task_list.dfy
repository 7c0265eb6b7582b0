/**
 * The task-list component's state machine (src/components/TaskList.tsx):
 * the list transformations its handlers apply, and the component itself,
 * whose handlers update its state fields one step after another around a
 * remote call whose outcome is passed in.
 */
module TaskList {
  import opened Wrappers
  import opened Text
  import opened Sequences
  import opened Sortable
  import opened Query

  // ---------------------------------------------------------------------
  // List transformations
  // ---------------------------------------------------------------------

  predicate HasId(s: seq<Task>, id: int) {
    exists i :: 0 <= i < |s| && s[i].id == id
  }

  /** `tasks.findIndex(t => t.id === id)`: the first index holding `id`,
      or -1 when there is none. */
  function FindIndex(s: seq<Task>, id: int): (r: int)
    ensures -1 <= r < |s|
    ensures r == -1 <==> !HasId(s, id)
    ensures r >= 0 ==> s[r].id == id && forall i :: 0 <= i < r ==> s[i].id != id
  {
    if s == [] then -1
    else if s[0].id == id then 0
    else
      var k := FindIndex(s[1..], id);
      assert forall i :: 1 <= i < |s| ==> s[1..][i - 1] == s[i];
      if k == -1 then -1 else k + 1
  }

  /** `tasks.find(t => t.id === id)`: the first task holding `id`. */
  function Find(s: seq<Task>, id: int): (r: Option<Task>)
    ensures r.None? <==> !HasId(s, id)
    ensures r.Some? ==> r.value.id == id && r.value in s
    ensures r.Some? ==> r.value == s[FindIndex(s, id)]
  {
    var k := FindIndex(s, id);
    if k == -1 then None else Some(s[k])
  }

  /** `tasks.map(t => t.id === id ? u : t)`: every element holding `id` is
      replaced by `u`, every other element keeps its place. */
  function ReplaceById(s: seq<Task>, id: int, u: Task): (r: seq<Task>)
    ensures |r| == |s|
    ensures forall i :: 0 <= i < |s| && s[i].id == id ==> r[i] == u
    ensures forall i :: 0 <= i < |s| && s[i].id != id ==> r[i] == s[i]
  {
    if s == [] then []
    else [if s[0].id == id then u else s[0]] + ReplaceById(s[1..], id, u)
  }

  /** `tasks.filter(t => t.id !== id)`: exactly the elements not holding
      `id`, each as often as before, in their old order. */
  function RemoveById(s: seq<Task>, id: int): (r: seq<Task>)
    ensures !HasId(r, id)
    ensures forall t: Task :: t in r <==> t in s && t.id != id
    ensures forall t: Task :: t.id != id ==> multiset(r)[t] == multiset(s)[t]
    ensures IsSubsequence(r, s)
  {
    var r := Filter(s, (t: Task) => t.id != id);
    assert forall i :: 0 <= i < |r| ==> r[i] in r;
    r
  }

  /** The search predicate: the lower-cased title contains the lower-cased
      query. */
  predicate MatchesQuery(t: Task, query: string) {
    Includes(ToLower(t.title), ToLower(query))
  }

  /** `filteredTasks`: exactly the tasks matching the query, each as often
      as in the list, in list order. */
  function SearchTasks(s: seq<Task>, query: string): (r: seq<Task>)
    ensures forall t :: t in r <==> t in s && MatchesQuery(t, query)
    ensures forall t :: MatchesQuery(t, query) ==> multiset(r)[t] == multiset(s)[t]
    ensures forall t :: !MatchesQuery(t, query) ==> t !in r
    ensures IsSubsequence(r, s)
  {
    Filter(s, (t: Task) => MatchesQuery(t, query))
  }

  // ---------------------------------------------------------------------
  // Properties of the transformations
  // ---------------------------------------------------------------------

  /** An empty search shows the whole list. */
  lemma SearchEmptyQueryShowsAll(s: seq<Task>)
    ensures SearchTasks(s, "") == s
  {
    forall t | t in s ensures MatchesQuery(t, "") {
      EmptyIncludedEverywhere(ToLower(t.title));
    }
    FilterKeepsAll(s, (t: Task) => MatchesQuery(t, ""));
  }

  /** Replacing an id the list does not hold leaves the list unchanged. */
  lemma ReplaceAbsentId(s: seq<Task>, id: int, u: Task)
    requires !HasId(s, id)
    ensures ReplaceById(s, id, u) == s
  {
  }

  /** Removing an id the list does not hold leaves the list unchanged. */
  lemma {:induction false} RemoveAbsentId(s: seq<Task>, id: int)
    requires !HasId(s, id)
    ensures RemoveById(s, id) == s
  {
    forall t | t in s ensures t.id != id {
      var i :| 0 <= i < |s| && s[i] == t;
    }
    FilterKeepsAll(s, (t: Task) => t.id != id);
  }

  /** Ids are pairwise distinct. */
  predicate UniqueIds(s: seq<Task>) {
    forall i, j :: 0 <= i < j < |s| ==> s[i].id != s[j].id
  }

  /** A drag keeps ids distinct: it only rearranges the list. */
  lemma MovePreservesUniqueIds(s: seq<Task>, from: nat, to: nat)
    requires from < |s| && to < |s| && UniqueIds(s)
    ensures UniqueIds(ArrayMove(s, from, to))
  {
    var m := ArrayMove(s, from, to);
    // Each position of the moved list takes its element from a distinct
    // position of the old list.
    forall i, j | 0 <= i < j < |m| ensures m[i].id != m[j].id {
      ArrayMoveAt(s, from, to, i);
      ArrayMoveAt(s, from, to, j);
    }
  }

  /** Replacing by a task that keeps the id keeps ids distinct. */
  lemma ReplacePreservesUniqueIds(s: seq<Task>, id: int, u: Task)
    requires UniqueIds(s) && u.id == id
    ensures UniqueIds(ReplaceById(s, id, u))
  {
  }

  /** Appending a task with an id the list does not hold keeps ids distinct. */
  lemma AppendPreservesUniqueIds(s: seq<Task>, u: Task)
    requires UniqueIds(s) && !HasId(s, u.id)
    ensures UniqueIds(s + [u])
  {
  }

  /** Removing elements keeps ids distinct. */
  lemma {:induction false} SubsequencePreservesUniqueIds(r: seq<Task>, s: seq<Task>)
    requires IsSubsequence(r, s) && UniqueIds(s)
    ensures UniqueIds(r)
    decreases |s|
  {
    if r != [] && s != [] {
      if r[0] == s[0] {
        SubsequencePreservesUniqueIds(r[1..], s[1..]);
        SubsequenceMembers(r[1..], s[1..]);
        forall j | 0 < j < |r| ensures r[0].id != r[j].id {
          assert r[j] == r[1..][j - 1] && r[j] in r[1..];
          var k :| 0 <= k < |s[1..]| && s[1..][k] == r[j];
          assert s[k + 1] == r[j];
        }
      } else {
        SubsequencePreservesUniqueIds(r, s[1..]);
      }
    }
  }

  /** A delete keeps ids distinct. */
  lemma RemovePreservesUniqueIds(s: seq<Task>, id: int)
    requires UniqueIds(s)
    ensures UniqueIds(RemoveById(s, id))
  {
    SubsequencePreservesUniqueIds(RemoveById(s, id), s);
  }

  /** Every element of a subsequence is an element of the sequence. */
  lemma {:induction false} SubsequenceMembers(r: seq<Task>, s: seq<Task>)
    requires IsSubsequence(r, s)
    ensures forall t :: t in r ==> t in s
    decreases |s|
  {
    if r != [] && s != [] {
      if r[0] == s[0] {
        SubsequenceMembers(r[1..], s[1..]);
        assert forall t :: t in r ==> t == r[0] || t in r[1..];
      } else {
        SubsequenceMembers(r, s[1..]);
      }
    }
  }

  // ---------------------------------------------------------------------
  // The component
  // ---------------------------------------------------------------------

  /** What the create handler did: alerted and returned, or sent the draft
      to the service. */
  datatype CreateEffect = Alerted(message: string) | Requested(draft: Draft)

  const EmptyTitleAlert := "Task title cannot be empty!"

  /** The condition under which a drag end moves a task: the drop landed on
      an item, and on a different one from the dragged item. */
  predicate DropMoves(activeId: int, overId: Option<int>) {
    overId.Some? && activeId != overId.value
  }

  /** `TaskComponent`'s state fields. The dark-mode flag is presentation
      only and is not modelled. */
  class TaskComponent {
    var tasks: seq<Task>
    var newTask: Draft
    var editTask: Option<Task>
    var searchQuery: string
    var isDeleteConfirm: bool
    var taskToDelete: Option<int>

    /** The initial state of every `useState`. */
    constructor ()
      ensures tasks == [] && newTask == EmptyDraft && editTask == None
      ensures searchQuery == "" && !isDeleteConfirm && taskToDelete == None
    {
      tasks := [];
      newTask := EmptyDraft;
      editTask := None;
      searchQuery := "";
      isDeleteConfirm := false;
      taskToDelete := None;
    }

    /** The start-up load: the fetched list replaces `tasks` wholesale; a
        failed fetch leaves it as it was. */
    method LoadTasks(fetched: Response<seq<Task>>)
      modifies this`tasks
      ensures tasks == if fetched.Ok? then fetched.value else old(tasks)
    {
      if fetched.Ok? {
        tasks := fetched.value;
      }
    }

    /** `handleDragEnd`: when the drop lands on another item, the dragged
        task moves to the index the target held; otherwise nothing changes.
        Both ids come from rendered items, which are tasks of the list. */
    method HandleDragEnd(activeId: int, overId: Option<int>)
      requires DropMoves(activeId, overId) ==> HasId(tasks, activeId) && HasId(tasks, overId.value)
      modifies this`tasks
      ensures !DropMoves(activeId, overId) ==> tasks == old(tasks)
      ensures DropMoves(activeId, overId) ==>
        tasks == ArrayMove(old(tasks), FindIndex(old(tasks), activeId), FindIndex(old(tasks), overId.value))
      ensures multiset(tasks) == multiset(old(tasks))
      ensures UniqueIds(old(tasks)) ==> UniqueIds(tasks)
      ensures DropMoves(activeId, overId) ==>
        tasks[FindIndex(old(tasks), overId.value)] == old(tasks)[FindIndex(old(tasks), activeId)]
    {
      if overId.Some? && activeId != overId.value {
        var oldIndex := FindIndex(tasks, activeId);
        var newIndex := FindIndex(tasks, overId.value);
        ArrayMovePermutes(tasks, oldIndex, newIndex);
        if UniqueIds(tasks) {
          MovePreservesUniqueIds(tasks, oldIndex, newIndex);
        }
        tasks := ArrayMove(tasks, oldIndex, newIndex);
      }
    }

    /** `handleCreateTask`: an invalid draft raises the alert and changes
        nothing, without a remote call. A valid draft is sent; on success
        the created task is appended and the draft is reset, on failure
        nothing changes. */
    method HandleCreateTask(created: Response<Task>) returns (effect: CreateEffect)
      modifies this`tasks, this`newTask
      ensures !ValidateTask(old(newTask).Fields()) ==>
        effect == Alerted(EmptyTitleAlert) && tasks == old(tasks) && newTask == old(newTask)
      ensures ValidateTask(old(newTask).Fields()) ==> effect == Requested(old(newTask))
      ensures ValidateTask(old(newTask).Fields()) && created.Ok? ==>
        tasks == old(tasks) + [created.value] && newTask == EmptyDraft
      ensures created.Fail? ==> tasks == old(tasks) && newTask == old(newTask)
    {
      if !ValidateTask(newTask.Fields()) {
        return Alerted(EmptyTitleAlert);
      }
      effect := Requested(newTask);
      if created.Fail? {
        return;
      }
      tasks := tasks + [created.value];
      newTask := EmptyDraft;
    }

    /** `handleEditTask`: open the edit form on a task. */
    method HandleEditTask(task: Task)
      modifies this`editTask
      ensures editTask == Some(task)
    {
      editTask := Some(task);
    }

    /** The title field of the create form. */
    method SetNewTaskTitle(title: string)
      modifies this`newTask
      ensures newTask == old(newTask).(title := title)
    {
      newTask := newTask.(title := title);
    }

    /** The description field of the create form. */
    method SetNewTaskDescription(description: string)
      modifies this`newTask
      ensures newTask == old(newTask).(description := Some(description))
    {
      newTask := newTask.(description := Some(description));
    }

    /** The title field of the edit form, which is shown only while a task
        is being edited. */
    method SetEditTitle(title: string)
      requires editTask.Some?
      modifies this`editTask
      ensures editTask == Some(old(editTask).value.(title := title))
    {
      editTask := Some(editTask.value.(title := title));
    }

    /** The description field of the edit form. */
    method SetEditDescription(description: string)
      requires editTask.Some?
      modifies this`editTask
      ensures editTask == Some(old(editTask).value.(description := Some(description)))
    {
      editTask := Some(editTask.value.(description := Some(description)));
    }

    /** `handleUpdateTask`: nothing happens (no request) when no task is
        being edited or its title is invalid. Otherwise the edited task is
        sent as the patch for its id; on success every element holding the
        id of the returned task is replaced by it and the form closes, on
        failure nothing changes. */
    method HandleUpdateTask(updated: Response<Task>) returns (request: Option<UpdateRequest>)
      modifies this`tasks, this`editTask
      ensures old(editTask).None? || !ValidateTask(old(editTask).value.Fields()) ==>
        request == None && tasks == old(tasks) && editTask == old(editTask)
      ensures old(editTask).Some? && ValidateTask(old(editTask).value.Fields()) ==>
        request == Some(UpdateRequest(old(editTask).value.id, old(editTask).value.Fields()))
      ensures request.Some? && updated.Ok? ==>
        tasks == ReplaceById(old(tasks), updated.value.id, updated.value) && editTask == None
      ensures updated.Fail? ==> tasks == old(tasks) && editTask == old(editTask)
    {
      if editTask.None? || !ValidateTask(editTask.value.Fields()) {
        return None;
      }
      request := Some(UpdateRequest(editTask.value.id, editTask.value.Fields()));
      if updated.Fail? {
        return;
      }
      tasks := ReplaceById(tasks, updated.value.id, updated.value);
      editTask := None;
    }

    /** `handleToggleStatus`: an id not in the list does nothing. Otherwise
        the opposite of the first matching task's status is requested, and
        on success every element holding the id is replaced by the returned
        task in its place; on failure nothing changes. */
    method HandleToggleStatus(id: int, updated: Response<Task>) returns (request: Option<UpdateRequest>)
      modifies this`tasks
      ensures !HasId(old(tasks), id) ==> request == None && tasks == old(tasks)
      ensures HasId(old(tasks), id) ==>
        request == Some(UpdateRequest(id,
          TaskFields(None, None, None, Some(Flip(Find(old(tasks), id).value.status)))))
      ensures HasId(old(tasks), id) && updated.Ok? ==> tasks == ReplaceById(old(tasks), id, updated.value)
      ensures updated.Fail? ==> tasks == old(tasks)
    {
      var task := Find(tasks, id);
      if task.None? {
        return None;
      }
      var status := Flip(task.value.status);
      request := Some(UpdateRequest(id, TaskFields(None, None, None, Some(status))));
      if updated.Fail? {
        return;
      }
      tasks := ReplaceById(tasks, id, updated.value);
    }

    /** `handleDeleteConfirm`: the first phase of a delete records the id
        and opens the confirmation dialog. */
    method HandleDeleteConfirm(id: int)
      modifies this`taskToDelete, this`isDeleteConfirm
      ensures taskToDelete == Some(id) && isDeleteConfirm
    {
      taskToDelete := Some(id);
      isDeleteConfirm := true;
    }

    /** The dialog's Cancel button closes it and keeps the recorded id. */
    method CancelDelete()
      modifies this`isDeleteConfirm
      ensures !isDeleteConfirm
    {
      isDeleteConfirm := false;
    }

    /** `handleDeleteTask`: with no recorded id nothing happens. Otherwise
        the recorded id is sent; on success exactly the elements holding it
        are removed and the dialog state is cleared, on failure nothing
        changes. */
    method HandleDeleteTask(deleted: Response<()>) returns (request: Option<int>)
      modifies this`tasks, this`isDeleteConfirm, this`taskToDelete
      ensures request == old(taskToDelete)
      ensures old(taskToDelete).Some? && deleted.Ok? ==>
        tasks == RemoveById(old(tasks), old(taskToDelete).value) &&
        !isDeleteConfirm && taskToDelete == None
      ensures old(taskToDelete).None? || deleted.Fail? ==>
        tasks == old(tasks) && isDeleteConfirm == old(isDeleteConfirm) && taskToDelete == old(taskToDelete)
    {
      request := taskToDelete;
      if taskToDelete.None? || deleted.Fail? {
        return;
      }
      tasks := RemoveById(tasks, taskToDelete.value);
      isDeleteConfirm := false;
      taskToDelete := None;
    }

    /** The search box. */
    method SetSearchQuery(query: string)
      modifies this`searchQuery
      ensures searchQuery == query
    {
      searchQuery := query;
    }

    /** `filteredTasks`: the tasks the list shows. */
    function FilteredTasks(): (r: seq<Task>)
      reads this
      ensures forall t :: t in r <==> t in tasks && MatchesQuery(t, searchQuery)
      ensures forall t :: MatchesQuery(t, searchQuery) ==> multiset(r)[t] == multiset(tasks)[t]
      ensures IsSubsequence(r, tasks)
      ensures searchQuery == "" ==> r == tasks
    {
      SearchEmptyQueryShowsAll(tasks);
      SearchTasks(tasks, searchQuery)
    }
  }
}
