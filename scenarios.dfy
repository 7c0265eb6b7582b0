/** Runs of the component against a scripted service, checked from the
    handlers' contracts alone. */
module Scenarios {
  import opened Wrappers
  import opened Text
  import opened Sequences
  import opened Sortable
  import opened Query
  import opened TaskList

  /** A query whose first character the text lacks is not included. */
  lemma MissingFirstCharNotIncluded(text: string, query: string)
    requires query != [] && query[0] !in text
    ensures !Includes(text, query)
  {
  }

  /** A title starting with "Buy" matches the query "buy". */
  lemma BuyPrefixMatches(t: Task)
    requires |t.title| >= 3 && t.title[..3] == "Buy"
    ensures MatchesQuery(t, "buy")
  {
    var lower := ToLower(t.title);
    assert ToLower("buy") == "buy";
    assert lower[..3] == "buy";
    assert IsPrefix("buy", lower[0..]);
  }

  /** "Walk dog" has no b, so it does not match "buy". */
  lemma WalkDogMisses(t: Task)
    requires t.title == "Walk dog"
    ensures !MatchesQuery(t, "buy")
  {
    assert ToLower("buy") == "buy";
    assert forall i :: 0 <= i < |t.title| ==> LowerChar(t.title[i]) != 'b';
    MissingFirstCharNotIncluded(ToLower(t.title), "buy");
  }

  /** Searching "buy" in "Buy milk", "Walk dog", "Buy eggs" keeps the first
      and the last, in order. */
  lemma SearchExample(a: Task, b: Task, c: Task)
    requires a.title == "Buy milk" && b.title == "Walk dog" && c.title == "Buy eggs"
    ensures SearchTasks([a, b, c], "buy") == [a, c]
  {
    BuyPrefixMatches(a);
    BuyPrefixMatches(c);
    WalkDogMisses(b);
    var p := (t: Task) => MatchesQuery(t, "buy");
    assert [a, b, c][1..] == [b, c] && [b, c][1..] == [c];
    assert Filter([c], p) == [c];
    assert Filter([b, c], p) == [c];
  }

  /** Dragging task 1 onto task 3 in [1, 2, 3, 4] gives [2, 3, 1, 4]. */
  method DragScenario(a: Task, b: Task, c: Task, d: Task)
    requires a.id == 1 && b.id == 2 && c.id == 3 && d.id == 4
  {
    var component := new TaskComponent();
    component.LoadTasks(Ok([a, b, c, d]));
    assert component.tasks[0].id == 1 && component.tasks[2].id == 3;
    assert FindIndex(component.tasks, 1) == 0 && FindIndex(component.tasks, 3) == 2;
    component.HandleDragEnd(1, Some(3));
    MoveIsNotSwap(a, b, c, d);
    assert component.tasks == [b, c, a, d];
    component.HandleDragEnd(2, Some(2));
    component.HandleDragEnd(2, None);
    assert component.tasks == [b, c, a, d];
  }

  /** The blank draft is invalid; a draft titled "X" is valid. */
  lemma DraftValidity(d: Draft)
    ensures !ValidateTask(EmptyDraft.Fields())
    ensures d.title == "X" ==> ValidateTask(d.Fields())
  {
    assert !IsWhitespace("X"[0]);
  }

  /** Create alerts on the blank draft, then appends the service's task
      once the draft has a title. */
  method CreateScenario(existing: Task, created: Task)
  {
    var component := new TaskComponent();
    component.LoadTasks(Ok([existing]));
    DraftValidity(EmptyDraft.(title := "X"));
    var effect := component.HandleCreateTask(Ok(created));
    assert effect == Alerted(EmptyTitleAlert) && component.tasks == [existing];
    component.SetNewTaskTitle("X");
    effect := component.HandleCreateTask(Ok(created));
    assert component.tasks == [existing, created] && component.newTask == EmptyDraft;
  }

  /** A failed delete changes nothing; a successful one removes the task. */
  method DeleteScenario(kept: Task, doomed: Task)
    requires kept.id != doomed.id
  {
    var component := new TaskComponent();
    component.LoadTasks(Ok([kept, doomed]));
    component.HandleDeleteConfirm(doomed.id);
    var request := component.HandleDeleteTask(Fail);
    assert request == Some(doomed.id);
    assert component.tasks == [kept, doomed] && component.isDeleteConfirm;
    request := component.HandleDeleteTask(Ok(()));
    assert component.tasks[0] == kept;
    assert component.tasks == [kept] && !component.isDeleteConfirm;
  }

  /** Toggling twice through a service that applies the requested status
      gives the task its original status back. */
  method ToggleTwiceScenario(t: Task)
  {
    var component := new TaskComponent();
    component.LoadTasks(Ok([t]));
    var request := component.HandleToggleStatus(t.id, Ok(t.(status := Flip(t.status))));
    assert component.tasks == [t.(status := Flip(t.status))];
    request := component.HandleToggleStatus(t.id, Ok(t.(status := Flip(Flip(t.status)))));
    assert request.value.patch.status == Some(t.status);
    FlipTwice(t.status);
    assert component.tasks == [t];
  }
}
