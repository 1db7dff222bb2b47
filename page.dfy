/** The state of the task-manager page and its event handlers. React's
    `useState` pairs become fields; each handler replaces them as its `set...` calls do. */
module Page {
  import opened JsArray
  import opened Tasks
  import JsString

  class TaskManagementApp {
    /** The task list, newest first. */
    var tasks: seq<Task>
    /** The text in the "Enter task title..." box. */
    var newTaskTitle: string
    /** The selected All / Active / Completed view. */
    var filter: StatusFilter

    /** A freshly mounted page: the seed list, an empty input box, the All view. */
    constructor ()
      ensures tasks == Seed() && newTaskTitle == "" && filter == All
    {
      tasks := Seed();
      newTaskTitle := "";
      filter := All;
    }

    /** Whether the Add Task button is enabled: the box holds some non-whitespace character. */
    function CanAdd(): (b: bool)
      reads this
      ensures b <==> !forall k :: 0 <= k < |newTaskTitle| ==> JsString.IsWhitespace(newTaskTitle[k])
    {
      JsString.Trim(newTaskTitle) != []
    }

    /** Typing in the input box. */
    method SetNewTaskTitle(value: string)
      modifies this
      ensures newTaskTitle == value
      ensures tasks == old(tasks) && filter == old(filter)
    {
      newTaskTitle := value;
    }

    /** Submitting the form (button or Enter). `freshId` and `today` are what
        `Date.now().toString()` and the ISO date of the clock give at that moment.
        A blank box changes nothing; otherwise the new task goes in front and the box
        is cleared. Ids stay unique if they were and `freshId` is not in use. */
    method AddTask(freshId: string, today: string)
      modifies this
      ensures tasks == Added(old(tasks), old(newTaskTitle), freshId, today)
      ensures newTaskTitle == if old(CanAdd()) then "" else old(newTaskTitle)
      ensures filter == old(filter)
      ensures UniqueIds(old(tasks)) && freshId !in Ids(old(tasks)) ==> UniqueIds(tasks)
    {
      ghost var before, typed := tasks, newTaskTitle;
      var trimmed := JsString.Trim(newTaskTitle);
      if trimmed != [] {
        var newTask := Task(freshId, trimmed, None, false, Medium, None, today);
        tasks := [newTask] + tasks;
        newTaskTitle := "";
      }
      assert tasks == Added(before, typed, freshId, today);
      if UniqueIds(before) && freshId !in Ids(before) {
        AddedKeepsUniqueIds(before, typed, freshId, today);
      }
    }

    /** Clicking the completion button of task `id`. */
    method ToggleTask(id: string)
      modifies this
      ensures tasks == Toggled(old(tasks), id)
      ensures newTaskTitle == old(newTaskTitle) && filter == old(filter)
      ensures UniqueIds(old(tasks)) ==> UniqueIds(tasks)
    {
      ToggledKeepsIds(tasks, id);
      tasks := Map(tasks, (t: Task) => Flip(t, id));
    }

    /** Clicking the delete button of task `id`. */
    method DeleteTask(id: string)
      modifies this
      ensures tasks == Deleted(old(tasks), id)
      ensures newTaskTitle == old(newTaskTitle) && filter == old(filter)
      ensures UniqueIds(old(tasks)) ==> UniqueIds(tasks)
    {
      if UniqueIds(tasks) {
        DeletedKeepsUniqueIds(tasks, id);
      }
      tasks := Filter(tasks, (t: Task) => t.id != id);
    }

    /** Clicking one of the All / Active / Completed buttons. */
    method SetFilter(f: StatusFilter)
      modifies this
      ensures filter == f
      ensures tasks == old(tasks) && newTaskTitle == old(newTaskTitle)
    {
      filter := f;
    }

    /** `filteredTasks`: an order-preserving subsequence of the list holding exactly the
        tasks the current view shows; the All view is the whole list. */
    function FilteredTasks(): (r: seq<Task>)
      reads this
      ensures IsSubsequence(r, tasks)
      ensures forall t :: t in r <==> t in tasks && Shows(filter, t)
      ensures filter == All ==> r == tasks
    {
      VisibleSpec(tasks, filter);
      Visible(tasks, filter)
    }

    /** `totalCount`: the length of the whole list, which is what the All view shows and
        what the Active and Completed views show between them. */
    function TotalCount(): (n: nat)
      reads this
      ensures n == |Visible(tasks, All)|
      ensures n == |Visible(tasks, Active)| + |Visible(tasks, Completed)|
    {
      VisibleSpec(tasks, All);
      VisiblePartition(tasks);
      |tasks|
    }

    /** `completedCount`: as many as the Completed view shows, never more than the total. */
    function CompletedCount(): (n: nat)
      reads this
      ensures n == |Visible(tasks, Completed)|
      ensures n <= TotalCount()
      ensures n + |Visible(tasks, Active)| == TotalCount()
    {
      VisiblePartition(tasks);
      Tasks.CompletedCount(tasks)
    }

    /** The Progress percentage: between 0 and 100, 0 for an empty list. */
    function ProgressPercent(): (p: nat)
      reads this
      ensures p <= 100
      ensures TotalCount() == 0 ==> p == 0
      ensures TotalCount() > 0 ==> 2 * TotalCount() * p <= 200 * CompletedCount() + TotalCount()
                                                     < 2 * TotalCount() * (p + 1)
    {
      Progress(tasks)
    }
  }

  /** A short session on a fresh page: the seed views, then deleting task 2. */
  method SeedSession()
  {
    var app := new TaskManagementApp();
    SeedViews();
    SeedProgress();
    assert app.FilteredTasks() == Seed();
    assert app.ProgressPercent() == 33;

    app.SetFilter(Active);
    assert app.FilteredTasks() == [Seed()[0], Seed()[2]];

    app.DeleteTask("2");
    DeletedSpec(Seed(), "2");
    assert "2" !in Ids(app.tasks);
  }

  /** Adding a task whose title is typed with surrounding spaces, on a fresh page:
      the spaces come off and the seed list follows the new task. */
  method PaddedTitleSession(title: string, freshId: string, today: string)
    requires title != [] && JsString.IsTrimmed(title)
  {
    var app := new TaskManagementApp();
    app.SetNewTaskTitle("  " + title + " ");
    assert JsString.AllWhitespace("  ") && JsString.AllWhitespace(" ");
    JsString.TrimPadded("  ", title, " ");
    app.AddTask(freshId, today);
    assert app.tasks[0].title == title && app.newTaskTitle == "";
    assert app.tasks[1..] == Seed();
  }
}
