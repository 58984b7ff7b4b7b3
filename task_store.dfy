/**
  The task board's state and its reducer: a table from each of the four fixed
  category names to an ordered sequence of tasks, a draft for the next task,
  and the copy-on-write transitions addTask, toggleTask and deleteTask.
 */
module TaskStore {
  import opened JsString

  /** The category registry, in display order (colours are cosmetic and left out). */
  const CategoryNames: seq<string> := ["MUST DO", "SHOULD DO", "COULD DO", "IF I HAVE TIME"]

  /** A task id; the application takes it from the millisecond clock. */
  type TaskId = int

  datatype Task = Task(id: TaskId, text: string, completed: bool)

  /** The draft the input form is bound to. */
  datatype Draft = Draft(text: string, category: string)

  /** The tasks of each category, keyed by category name. */
  type Store = map<string, seq<Task>>

  /** Both state cells of the component. */
  datatype Board = Board(tasks: Store, draft: Draft)

  // ---------------------------------------------------------------------------
  // Sequence-level operations

  /** How many tasks of `ts` carry `id`. */
  function CountId(ts: seq<Task>, id: TaskId): (n: nat)
    ensures n <= |ts|
    ensures n == 0 <==> forall i :: 0 <= i < |ts| ==> ts[i].id != id
    decreases |ts|
  {
    if ts == [] then 0 else (if ts[0].id == id then 1 else 0) + CountId(ts[1..], id)
  }

  /** One step of the toggle: a task carrying `id` gets its completion flag
      flipped, any other task is returned as it is. */
  function ToggleIfMatch(t: Task, id: TaskId): (r: Task)
  {
    if t.id == id then t.(completed := !t.completed) else t
  }

  /** The toggle applied to every task of a category: the completion flag of exactly the tasks
      carrying `id` is flipped; everything else, and the order, stays. */
  function ToggleMatching(ts: seq<Task>, id: TaskId): (r: seq<Task>)
    ensures |r| == |ts|
    ensures forall i :: 0 <= i < |ts| ==>
      && r[i].id == ts[i].id
      && r[i].text == ts[i].text
      && r[i].completed == (if ts[i].id == id then !ts[i].completed else ts[i].completed)
    decreases |ts|
  {
    if ts == [] then [] else [ToggleIfMatch(ts[0], id)] + ToggleMatching(ts[1..], id)
  }

  /** The delete's filter: keeps, in order, the tasks whose id differs from
      `id`; it is one task shorter for each task that carries `id`
      (RemoveMatchingMembers says which ones survive). */
  function RemoveMatching(ts: seq<Task>, id: TaskId): (r: seq<Task>)
    ensures |r| == |ts| - CountId(ts, id)
    decreases |ts|
  {
    if ts == [] then []
    else if ts[0].id == id then RemoveMatching(ts[1..], id)
    else [ts[0]] + RemoveMatching(ts[1..], id)
  }

  /** Exactly the tasks not carrying `id` survive the filter. */
  lemma {:induction false} RemoveMatchingMembers(ts: seq<Task>, id: TaskId)
    ensures forall t :: t in RemoveMatching(ts, id) <==> t in ts && t.id != id
    decreases |ts|
  {
    if ts != [] {
      RemoveMatchingMembers(ts[1..], id);
      assert ts == [ts[0]] + ts[1..];
    }
  }

  /** `a` is `b` with some elements left out, the rest in their original order. */
  predicate IsSubsequence(a: seq<Task>, b: seq<Task>)
    decreases |b|
  {
    if a == [] then true
    else if b == [] then false
    else (a[0] == b[0] && IsSubsequence(a[1..], b[1..])) || IsSubsequence(a, b[1..])
  }

  /** No two tasks of `ts` share an id. */
  ghost predicate DistinctIds(ts: seq<Task>)
  {
    forall i, j :: 0 <= i < j < |ts| ==> ts[i].id != ts[j].id
  }

  // ---------------------------------------------------------------------------
  // Store-level predicates

  /** The store has exactly the four category names as keys. */
  ghost predicate HasAllCategories(tasks: Store)
  {
    forall c :: c in tasks <==> c in CategoryNames
  }

  /** No two tasks anywhere in the store share an id. */
  ghost predicate UniqueIds(tasks: Store)
  {
    forall c1, i1, c2, i2 ::
      c1 in tasks && c2 in tasks && 0 <= i1 < |tasks[c1]| && 0 <= i2 < |tasks[c2]| &&
      tasks[c1][i1].id == tasks[c2][i2].id
      ==> c1 == c2 && i1 == i2
  }

  predicate SameId(t: Task, u: Task)
  {
    t.id == u.id
  }

  /** Some task of the store carries `id`. */
  ghost predicate IdInUse(tasks: Store, id: TaskId)
  {
    exists c, i :: c in tasks && 0 <= i < |tasks[c]| && tasks[c][i].id == id
  }

  /** No stored task has a text that trims to nothing. */
  ghost predicate NonBlankTexts(tasks: Store)
  {
    forall c, t :: c in tasks && t in tasks[c] ==> !IsBlank(t.text)
  }

  /** The invariant every state of the component keeps: all four categories are
      present, the draft targets one of them, no task text is blank, and task
      ids are unique. */
  ghost predicate WellFormed(b: Board)
  {
    HasAllCategories(b.tasks) && b.draft.category in b.tasks && NonBlankTexts(b.tasks) && UniqueIds(b.tasks)
  }

  // ---------------------------------------------------------------------------
  // The transitions

  /** `addTask`: a blank draft changes nothing; otherwise the task
      `{id, text: draft.text, completed: false}` is appended to the draft's
      category and the draft text is cleared, keeping its category. */
  function AddTask(b: Board, id: TaskId): (r: Board)
    requires !IsBlank(b.draft.text) ==> b.draft.category in b.tasks
    ensures IsBlank(b.draft.text) ==> r == b
    ensures !IsBlank(b.draft.text) ==>
      var c, old_ts := b.draft.category, b.tasks[b.draft.category];
      && r.tasks.Keys == b.tasks.Keys
      && |r.tasks[c]| == |old_ts| + 1
      && r.tasks[c][..|old_ts|] == old_ts
      && r.tasks[c][|old_ts|] == Task(id, b.draft.text, false)
      && (forall k :: k in b.tasks && k != c ==> r.tasks[k] == b.tasks[k])
      && r.draft == Draft("", c)
  {
    if IsBlank(b.draft.text) then b
    else
      var c := b.draft.category;
      Board(b.tasks[c := b.tasks[c] + [Task(id, b.draft.text, false)]], b.draft.(text := ""))
  }

  /** `toggleTask(category, id)`: in `category`, the tasks carrying `id` have
      their completion flipped; lengths, ids, texts, order and all other
      categories are unchanged. */
  function ToggleTask(tasks: Store, category: string, id: TaskId): (r: Store)
    requires category in tasks
    ensures r.Keys == tasks.Keys
    ensures forall k :: k in tasks && k != category ==> r[k] == tasks[k]
    ensures |r[category]| == |tasks[category]|
    ensures forall i :: 0 <= i < |tasks[category]| ==>
      var t, u := tasks[category][i], r[category][i];
      u.id == t.id && u.text == t.text && (u.completed <==> (t.completed != (t.id == id)))
  {
    tasks[category := ToggleMatching(tasks[category], id)]
  }

  /** `deleteTask(category, id)`: in `category`, the tasks carrying `id` are
      dropped and the others kept; all other categories are unchanged. */
  function DeleteTask(tasks: Store, category: string, id: TaskId): (r: Store)
    requires category in tasks
    ensures r.Keys == tasks.Keys
    ensures forall k :: k in tasks && k != category ==> r[k] == tasks[k]
    ensures |r[category]| == |tasks[category]| - CountId(tasks[category], id)
    ensures forall t :: t in r[category] <==> t in tasks[category] && t.id != id
  {
    RemoveMatchingMembers(tasks[category], id);
    tasks[category := RemoveMatching(tasks[category], id)]
  }

  // ---------------------------------------------------------------------------
  // Properties of toggling

  /** Toggling the same id twice gives back the original tasks. */
  lemma {:induction false} ToggleMatchingTwice(ts: seq<Task>, id: TaskId)
    ensures ToggleMatching(ToggleMatching(ts, id), id) == ts
    decreases |ts|
  {
    if ts != [] {
      ToggleMatchingTwice(ts[1..], id);
    }
  }

  /** Toggling the same task twice gives back the original store. */
  lemma ToggleTaskTwice(tasks: Store, category: string, id: TaskId)
    requires category in tasks
    ensures ToggleTask(ToggleTask(tasks, category, id), category, id) == tasks
  {
    ToggleMatchingTwice(tasks[category], id);
  }

  /** Toggling an id that no task of the category carries changes nothing. */
  lemma ToggleTaskAbsent(tasks: Store, category: string, id: TaskId)
    requires category in tasks && CountId(tasks[category], id) == 0
    ensures ToggleTask(tasks, category, id) == tasks
  {
    assert ToggleTask(tasks, category, id)[category] == tasks[category];
  }

  // ---------------------------------------------------------------------------
  // Properties of deleting

  /** Filtering keeps the surviving tasks in their original relative order. */
  lemma {:induction false} RemoveMatchingIsSubsequence(ts: seq<Task>, id: TaskId)
    ensures IsSubsequence(RemoveMatching(ts, id), ts)
    decreases |ts|
  {
    if ts != [] {
      RemoveMatchingIsSubsequence(ts[1..], id);
      var r := RemoveMatching(ts[1..], id);
      if ts[0].id == id {
        SubsequenceOfTail(r, ts);
      } else {
        assert ([ts[0]] + r)[1..] == r;
      }
    }
  }

  lemma {:induction false} SubsequenceOfTail(a: seq<Task>, b: seq<Task>)
    requires b != [] && IsSubsequence(a, b[1..])
    ensures IsSubsequence(a, b)
  {
  }

  /** Filtering distributes over concatenation: the survivors of the earlier
      tasks all come before the survivors of the later ones. */
  lemma {:induction false} RemoveMatchingAppend(a: seq<Task>, b: seq<Task>, id: TaskId)
    ensures RemoveMatching(a + b, id) == RemoveMatching(a, id) + RemoveMatching(b, id)
    decreases |a|
  {
    if a == [] {
      assert a + b == b;
    } else {
      var head := if a[0].id == id then [] else [a[0]];
      calc {
        RemoveMatching(a + b, id);
        { assert (a + b)[0] == a[0] && (a + b)[1..] == a[1..] + b; }
        head + RemoveMatching(a[1..] + b, id);
        { RemoveMatchingAppend(a[1..], b, id); }
        head + (RemoveMatching(a[1..], id) + RemoveMatching(b, id));
        (head + RemoveMatching(a[1..], id)) + RemoveMatching(b, id);
        RemoveMatching(a, id) + RemoveMatching(b, id);
      }
    }
  }

  /** Filtering an id no task carries returns the tasks as they were. */
  lemma {:induction false} RemoveMatchingAbsent(ts: seq<Task>, id: TaskId)
    requires CountId(ts, id) == 0
    ensures RemoveMatching(ts, id) == ts
    decreases |ts|
  {
    if ts != [] {
      assert ts[0].id != id;
      RemoveMatchingAbsent(ts[1..], id);
    }
  }

  /** Deleting twice is deleting once. */
  lemma DeleteTaskIdempotent(tasks: Store, category: string, id: TaskId)
    requires category in tasks
    ensures DeleteTask(DeleteTask(tasks, category, id), category, id) == DeleteTask(tasks, category, id)
  {
    var r := RemoveMatching(tasks[category], id);
    RemoveMatchingMembers(tasks[category], id);
    RemoveMatchingAbsent(r, id);
  }

  /** Deleting an id that no task of the category carries changes nothing. */
  lemma DeleteTaskAbsent(tasks: Store, category: string, id: TaskId)
    requires category in tasks && CountId(tasks[category], id) == 0
    ensures DeleteTask(tasks, category, id) == tasks
  {
    RemoveMatchingAbsent(tasks[category], id);
  }

  /** The tasks left in the category after a delete are those it had, minus
      the ones carrying `id`, in their original order. */
  lemma DeleteTaskKeepsOrder(tasks: Store, category: string, id: TaskId)
    requires category in tasks
    ensures IsSubsequence(DeleteTask(tasks, category, id)[category], tasks[category])
  {
    RemoveMatchingIsSubsequence(tasks[category], id);
  }

  // ---------------------------------------------------------------------------
  // Id uniqueness and the store invariant

  lemma {:induction false} RemoveMatchingKeepsDistinct(ts: seq<Task>, id: TaskId)
    requires DistinctIds(ts)
    ensures DistinctIds(RemoveMatching(ts, id))
    decreases |ts|
  {
    if ts != [] {
      var rest := RemoveMatching(ts[1..], id);
      RemoveMatchingKeepsDistinct(ts[1..], id);
      RemoveMatchingMembers(ts[1..], id);
      if ts[0].id != id {
        var r := [ts[0]] + rest;
        forall i, j | 0 <= i < j < |r| ensures r[i].id != r[j].id {
          if i == 0 {
            var t := rest[j - 1];
            assert t in ts[1..];
            var k :| 0 <= k < |ts| - 1 && ts[1..][k] == t;
            assert ts[k + 1] == t;
          } else {
            assert r[i] == rest[i - 1] && r[j] == rest[j - 1];
          }
        }
      }
    }
  }

  lemma {:induction false} CountIdDistinct(ts: seq<Task>, id: TaskId)
    requires DistinctIds(ts)
    ensures CountId(ts, id) <= 1
    decreases |ts|
  {
    if ts != [] {
      CountIdDistinct(ts[1..], id);
      if ts[0].id == id {
        assert forall i :: 0 <= i < |ts[1..]| ==> ts[1..][i].id != id by {
          forall i | 0 <= i < |ts[1..]| ensures ts[1..][i].id != id {
            assert ts[1..][i] == ts[i + 1];
          }
        }
      }
    }
  }

  /** With unique ids, a delete removes exactly one task when some task of the
      category carries the id, and none otherwise. */
  lemma DeleteTaskRemovesOne(tasks: Store, category: string, id: TaskId)
    requires category in tasks && UniqueIds(tasks)
    ensures |DeleteTask(tasks, category, id)[category]| ==
      if exists i :: 0 <= i < |tasks[category]| && tasks[category][i].id == id
      then |tasks[category]| - 1 else |tasks[category]|
  {
    assert DistinctIds(tasks[category]);
    CountIdDistinct(tasks[category], id);
  }

  /** Appending a task whose id is not in use keeps ids unique. */
  lemma AddTaskPreservesUniqueIds(b: Board, id: TaskId)
    requires !IsBlank(b.draft.text) ==> b.draft.category in b.tasks
    requires UniqueIds(b.tasks) && !IdInUse(b.tasks, id)
    ensures UniqueIds(AddTask(b, id).tasks)
  {
    if !IsBlank(b.draft.text) {
      var r := AddTask(b, id).tasks;
      var c := b.draft.category;
      var n := |b.tasks[c]|;
      forall c1: string, i1: int, c2: string, i2: int |
        c1 in r && c2 in r && 0 <= i1 < |r[c1]| && 0 <= i2 < |r[c2]| && SameId(r[c1][i1], r[c2][i2])
        ensures c1 == c2 && i1 == i2
      {
        if !(c1 == c && i1 == n) && !(c2 == c && i2 == n) {
          assert r[c1][i1] == b.tasks[c1][i1];
          assert r[c2][i2] == b.tasks[c2][i2];
        }
      }
    }
  }

  /** Toggling never changes an id, so ids stay unique. */
  lemma TogglePreservesUniqueIds(tasks: Store, category: string, id: TaskId)
    requires category in tasks && UniqueIds(tasks)
    ensures UniqueIds(ToggleTask(tasks, category, id))
  {
    var r := ToggleTask(tasks, category, id);
    forall c1: string, i1: int, c2: string, i2: int |
      c1 in r && c2 in r && 0 <= i1 < |r[c1]| && 0 <= i2 < |r[c2]| && SameId(r[c1][i1], r[c2][i2])
      ensures c1 == c2 && i1 == i2
    {
      assert r[c1][i1].id == tasks[c1][i1].id;
      assert r[c2][i2].id == tasks[c2][i2].id;
    }
  }

  /** Deleting only removes tasks, so ids stay unique. */
  lemma DeletePreservesUniqueIds(tasks: Store, category: string, id: TaskId)
    requires category in tasks && UniqueIds(tasks)
    ensures UniqueIds(DeleteTask(tasks, category, id))
  {
    var r := DeleteTask(tasks, category, id);
    var ts := tasks[category];
    assert DistinctIds(ts);
    RemoveMatchingKeepsDistinct(ts, id);
    forall c1: string, i1: int, c2: string, i2: int |
      c1 in r && c2 in r && 0 <= i1 < |r[c1]| && 0 <= i2 < |r[c2]| && SameId(r[c1][i1], r[c2][i2])
      ensures c1 == c2 && i1 == i2
    {
      if c1 == category && c2 == category {
        assert DistinctIds(r[category]);
      } else {
        var j1 := TaskIndex(tasks, r, category, id, c1, i1);
        var j2 := TaskIndex(tasks, r, category, id, c2, i2);
        assert tasks[c1][j1].id == tasks[c2][j2].id;
      }
    }
  }

  /** Where a task left after a delete sat before it. */
  lemma TaskIndex(tasks: Store, r: Store, category: string, id: TaskId, c: string, i: int) returns (j: int)
    requires category in tasks && r == DeleteTask(tasks, category, id)
    requires c in r && 0 <= i < |r[c]|
    ensures c in tasks && 0 <= j < |tasks[c]| && tasks[c][j] == r[c][i]
    ensures c != category ==> j == i
  {
    if c == category {
      assert r[c][i] in tasks[c];
      j :| 0 <= j < |tasks[c]| && tasks[c][j] == r[c][i];
    } else {
      j := i;
    }
  }

  /** Only non-blank drafts are stored, and toggling and deleting never change
      a text, so no stored task ever has a blank text. */
  lemma AddTaskKeepsTextsNonBlank(b: Board, id: TaskId)
    requires !IsBlank(b.draft.text) ==> b.draft.category in b.tasks
    requires NonBlankTexts(b.tasks)
    ensures NonBlankTexts(AddTask(b, id).tasks)
  {
    if !IsBlank(b.draft.text) {
      var r := AddTask(b, id).tasks;
      var added := Task(id, b.draft.text, false);
      forall c: string, t: Task | c in r && t in r[c] ensures !IsBlank(t.text) {
        if c == b.draft.category {
          assert r[c] == b.tasks[c] + [added];
          assert t in b.tasks[c] || t == added;
        } else {
          assert r[c] == b.tasks[c];
        }
      }
    }
  }

  lemma ToggleTaskKeepsTextsNonBlank(tasks: Store, category: string, id: TaskId)
    requires category in tasks && NonBlankTexts(tasks)
    ensures NonBlankTexts(ToggleTask(tasks, category, id))
  {
    var r := ToggleTask(tasks, category, id);
    forall c: string, t: Task | c in r && t in r[c] ensures !IsBlank(t.text) {
      if c == category {
        var i :| 0 <= i < |r[c]| && r[c][i] == t;
        assert tasks[c][i] in tasks[c] && tasks[c][i].text == t.text;
      } else {
        assert r[c] == tasks[c];
      }
    }
  }

  lemma DeleteTaskKeepsTextsNonBlank(tasks: Store, category: string, id: TaskId)
    requires category in tasks && NonBlankTexts(tasks)
    ensures NonBlankTexts(DeleteTask(tasks, category, id))
  {
  }

  /** The component's invariant holds after each transition, given a fresh id
      for an add. */
  lemma AddTaskPreservesWellFormed(b: Board, id: TaskId)
    requires WellFormed(b) && !IdInUse(b.tasks, id)
    ensures WellFormed(AddTask(b, id))
  {
    AddTaskKeepsTextsNonBlank(b, id);
    AddTaskPreservesUniqueIds(b, id);
  }

  lemma ToggleTaskPreservesWellFormed(b: Board, category: string, id: TaskId)
    requires WellFormed(b) && category in b.tasks
    ensures WellFormed(b.(tasks := ToggleTask(b.tasks, category, id)))
  {
    ToggleTaskKeepsTextsNonBlank(b.tasks, category, id);
    TogglePreservesUniqueIds(b.tasks, category, id);
  }

  lemma DeleteTaskPreservesWellFormed(b: Board, category: string, id: TaskId)
    requires WellFormed(b) && category in b.tasks
    ensures WellFormed(b.(tasks := DeleteTask(b.tasks, category, id)))
  {
    DeleteTaskKeepsTextsNonBlank(b.tasks, category, id);
    DeletePreservesUniqueIds(b.tasks, category, id);
  }
}
