/**
  The `App` component's state: the two state cells `tasks` and `newTask`,
  the loop that builds the initial store, and the handlers that replace the
  cells with the reducer's results.
 */
module TaskBoard {
  import opened JsString
  import opened TaskStore

  /** The initial store: one empty sequence per category name, assigned one
      key at a time in registry order. */
  method InitialTasks() returns (tasks: Store)
    ensures HasAllCategories(tasks)
    ensures forall c :: c in tasks ==> tasks[c] == []
  {
    tasks := map[];
    for k := 0 to |CategoryNames|
      invariant forall c :: c in tasks <==> c in CategoryNames[..k]
      invariant forall c :: c in tasks ==> tasks[c] == []
    {
      tasks := tasks[CategoryNames[k] := []];
    }
  }

  class App {
    var tasks: Store
    var newTask: Draft

    /** Both cells as one value, for stating transitions with the reducer. */
    function State(): (b: Board)
      reads this
    {
      Board(tasks, newTask)
    }

    /** Every category is present, the draft targets one of them and no
        stored task has a blank text. */
    ghost predicate Valid()
      reads this
    {
      HasAllCategories(tasks) && newTask.category in tasks && NonBlankTexts(tasks)
    }

    /** Mounting the component: four empty categories and an empty draft for
        the first category. */
    constructor ()
      ensures Valid() && WellFormed(State())
      ensures forall c :: c in tasks ==> tasks[c] == []
      ensures newTask == Draft("", "MUST DO")
    {
      var initial := InitialTasks();
      tasks := initial;
      newTask := Draft("", CategoryNames[0]);
    }

    /** The text field's change handler: only the draft text changes. */
    method SetDraftText(text: string)
      requires Valid()
      modifies this
      ensures Valid()
      ensures tasks == old(tasks) && newTask == Draft(text, old(newTask).category)
    {
      newTask := newTask.(text := text);
    }

    /** The category selector's change handler; the selector only offers the
        registry's names. */
    method SetDraftCategory(category: string)
      requires Valid() && category in CategoryNames
      modifies this
      ensures Valid()
      ensures tasks == old(tasks) && newTask == Draft(old(newTask).text, category)
    {
      newTask := newTask.(category := category);
    }

    /** `addTask`, with the clock reading passed in as `id`. */
    method AddTask(id: TaskId)
      requires Valid()
      modifies this
      ensures Valid()
      ensures State() == TaskStore.AddTask(old(State()), id)
      ensures UniqueIds(old(tasks)) && !IdInUse(old(tasks), id) ==> UniqueIds(tasks)
    {
      ghost var before := State();
      if IsBlank(newTask.text) {
        return;
      }
      var r := TaskStore.AddTask(State(), id);
      tasks, newTask := r.tasks, r.draft;
      AddTaskKeepsTextsNonBlank(before, id);
      if UniqueIds(before.tasks) && !IdInUse(before.tasks, id) {
        AddTaskPreservesUniqueIds(before, id);
      }
    }

    /** `toggleTask(category, id)`; the draft is untouched. */
    method ToggleTask(category: string, id: TaskId)
      requires Valid() && category in tasks
      modifies this
      ensures Valid()
      ensures tasks == TaskStore.ToggleTask(old(tasks), category, id) && newTask == old(newTask)
      ensures UniqueIds(old(tasks)) ==> UniqueIds(tasks)
    {
      ToggleTaskKeepsTextsNonBlank(tasks, category, id);
      if UniqueIds(tasks) {
        TogglePreservesUniqueIds(tasks, category, id);
      }
      tasks := TaskStore.ToggleTask(tasks, category, id);
    }

    /** `deleteTask(category, id)`; the draft is untouched. */
    method DeleteTask(category: string, id: TaskId)
      requires Valid() && category in tasks
      modifies this
      ensures Valid()
      ensures tasks == TaskStore.DeleteTask(old(tasks), category, id) && newTask == old(newTask)
      ensures UniqueIds(old(tasks)) ==> UniqueIds(tasks)
    {
      DeleteTaskKeepsTextsNonBlank(tasks, category, id);
      if UniqueIds(tasks) {
        DeletePreservesUniqueIds(tasks, category, id);
      }
      tasks := TaskStore.DeleteTask(tasks, category, id);
    }
  }

  /** A whitespace-only draft adds nothing. */
  method BlankDraftSession()
  {
    var app := new App();
    app.SetDraftText("   ");
    BlankIffAllWhitespace("   ");
    app.AddTask(1);
    assert app.tasks["MUST DO"] == [] && app.newTask.text == "   ";
  }
}
