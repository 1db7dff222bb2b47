/** The task list of the page: the `Task` record, the three seed tasks, and the pure
    values behind each handler and derived view. Every function here computes the new
    list or the view from the old list, as the page's `setTasks(...)` arguments and
    derived constants do; the class in module Page holds the state. */
module Tasks {
  import opened JsArray
  import JsString

  datatype Option<T> = None | Some(value: T)

  datatype Priority = Low | Medium | High

  /** One to-do item. Ids and dates are strings, as in the page. */
  datatype Task = Task(
    id: string,
    title: string,
    description: Option<string>,
    completed: bool,
    priority: Priority,
    dueDate: Option<string>,
    createdAt: string)

  /** The selector behind the All / Active / Completed buttons. */
  datatype StatusFilter = All | Active | Completed

  /** The three tasks the page starts with: distinct ids, and titles as the add form
      would leave them (non-empty, no surrounding whitespace). */
  function Seed(): (s: seq<Task>)
    ensures |s| == 3
    ensures UniqueIds(s)
    ensures TitlesTrimmed(s)
  {
    [ Task("1", "Complete project proposal",
           Some("Draft and finalize the Q4 project proposal for client review"),
           false, High, Some("2024-12-20"), "2024-12-15"),
      Task("2", "Review team feedback",
           Some("Go through all team member feedback from last sprint"),
           true, Medium, None, "2024-12-14"),
      Task("3", "Update documentation", None, false, Low, Some("2024-12-25"), "2024-12-13") ]
  }

  /** Every title is non-empty and free of surrounding whitespace, as the add form
      makes it. */
  ghost predicate TitlesTrimmed(ts: seq<Task>)
  {
    forall t :: t in ts ==> t.title != [] && JsString.IsTrimmed(t.title)
  }

  /** The ids of `ts`, in list order. */
  function Ids(ts: seq<Task>): (r: seq<string>)
    ensures |r| == |ts| && forall i :: 0 <= i < |ts| ==> r[i] == ts[i].id
  {
    Map(ts, (t: Task) => t.id)
  }

  /** No two tasks of `ts` share an id. The page relies on this (ids are React keys and
      the target of toggle and delete) but does not enforce it. */
  ghost predicate UniqueIds(ts: seq<Task>)
  {
    forall i, j :: 0 <= i < j < |ts| ==> ts[i].id != ts[j].id
  }

  // ----- add -----

  /** The list after submitting the form with `title` in the input box. `id` and `today`
      stand for `Date.now().toString()` and the ISO date of the clock at that moment.
      A title that trims to nothing leaves the list alone; otherwise a fresh task with
      the trimmed title, not completed, of medium priority, without description or due
      date, goes in front of the unchanged old list. */
  function Added(ts: seq<Task>, title: string, id: string, today: string): (r: seq<Task>)
    ensures |r| == |ts| + 1 <==> JsString.Trim(title) != []
    ensures JsString.Trim(title) == [] ==> r == ts
    ensures r[|r| - |ts|..] == ts
    ensures |r| > |ts| ==>
      && r[0].id == id && r[0].createdAt == today
      && r[0].title == JsString.Trim(title) && r[0].title != []
      && JsString.IsTrimmed(r[0].title)
      && !r[0].completed && r[0].priority == Medium
      && r[0].description == None && r[0].dueDate == None
  {
    var trimmed := JsString.Trim(title);
    if trimmed != [] then
      [Task(id, trimmed, None, false, Medium, None, today)] + ts
    else
      ts
  }

  /** `UniqueIds([x] + r)` splits into "x's id is new" and "r is unique". */
  lemma UniqueIdsCons(x: Task, r: seq<Task>)
    ensures UniqueIds([x] + r) <==> (forall t :: t in r ==> t.id != x.id) && UniqueIds(r)
  {
    var s := [x] + r;
    if UniqueIds(s) {
      assert s[0] == x;
      forall t | t in r ensures t.id != x.id {
        var j :| 0 <= j < |r| && r[j] == t;
        assert s[j + 1] == t;
      }
      forall i, j | 0 <= i < j < |r| ensures r[i].id != r[j].id {
        assert s[i + 1] == r[i] && s[j + 1] == r[j];
      }
    }
    if (forall t :: t in r ==> t.id != x.id) && UniqueIds(r) {
      forall i, j | 0 <= i < j < |s| ensures s[i].id != s[j].id {
        assert s[j] == r[j - 1];
        if i > 0 {
          assert s[i] == r[i - 1];
        }
      }
    }
  }

  /** Adding keeps ids unique when the supplied id is not in use. */
  lemma AddedKeepsUniqueIds(ts: seq<Task>, title: string, id: string, today: string)
    requires UniqueIds(ts)
    requires id !in Ids(ts)
    ensures UniqueIds(Added(ts, title, id, today))
  {
    var r := Added(ts, title, id, today);
    if |r| > |ts| {
      assert r == [r[0]] + ts;
      forall t | t in ts ensures t.id != id {
        var j :| 0 <= j < |ts| && ts[j] == t;
        assert Ids(ts)[j] == t.id;
      }
      UniqueIdsCons(r[0], ts);
    }
  }

  /** The id is not fresh by construction: two submissions that read the same clock
      value put two tasks with one id in the list. */
  lemma SameMillisecondDuplicatesId(ts: seq<Task>, title: string, id: string, today: string)
    requires JsString.Trim(title) != []
    ensures !UniqueIds(Added(Added(ts, title, id, today), title, id, today))
  {
    var r := Added(Added(ts, title, id, today), title, id, today);
    assert r[0].id == id && r[1].id == id;
  }

  // ----- toggle -----

  /** One task after a toggle of `id`: a copy with `completed` negated when its id is
      `id`, the task itself otherwise. */
  function Flip(t: Task, id: string): Task
  {
    if t.id == id then t.(completed := !t.completed) else t
  }

  /** The list after clicking the completion button of task `id`: same length and
      order; exactly the tasks whose id is `id` have `completed` negated, and no other
      field of any task changes. */
  function Toggled(ts: seq<Task>, id: string): (r: seq<Task>)
    ensures |r| == |ts|
    ensures forall i :: 0 <= i < |ts| ==>
      && r[i] == ts[i].(completed := r[i].completed)
      && (r[i].completed != ts[i].completed <==> ts[i].id == id)
  {
    Map(ts, (t: Task) => Flip(t, id))
  }

  /** Toggling the same id twice restores the list. */
  lemma ToggledTwice(ts: seq<Task>, id: string)
    ensures Toggled(Toggled(ts, id), id) == ts
  {
    var r := Toggled(Toggled(ts, id), id);
    assert forall i :: 0 <= i < |ts| ==> r[i] == ts[i];
  }

  /** Toggling an id that no task has changes nothing. */
  lemma ToggledAbsent(ts: seq<Task>, id: string)
    requires id !in Ids(ts)
    ensures Toggled(ts, id) == ts
  {
    var r := Toggled(ts, id);
    forall i | 0 <= i < |ts| ensures r[i] == ts[i] {
      assert Ids(ts)[i] == ts[i].id;
    }
  }

  /** Toggling never changes the ids, so it keeps them unique. */
  lemma ToggledKeepsIds(ts: seq<Task>, id: string)
    ensures Ids(Toggled(ts, id)) == Ids(ts)
    ensures UniqueIds(ts) ==> UniqueIds(Toggled(ts, id))
  {
    var a, b := Ids(Toggled(ts, id)), Ids(ts);
    assert forall i :: 0 <= i < |ts| ==> a[i] == b[i];
  }

  /** The number of completed tasks after a toggle: with unique ids, toggling the task
      at position `k` moves the count by one, down if it was completed, up if not. */
  lemma {:induction false} ToggledCount(ts: seq<Task>, k: nat)
    requires UniqueIds(ts) && k < |ts|
    ensures CompletedCount(Toggled(ts, ts[k].id))
         == if ts[k].completed then CompletedCount(ts) - 1 else CompletedCount(ts) + 1
  {
    var id := ts[k].id;
    var r := Toggled(ts, id);
    assert r == [r[0]] + r[1..];
    assert ts == [ts[0]] + ts[1..];
    UniqueIdsCons(ts[0], ts[1..]);
    assert r[1..] == Toggled(ts[1..], id) by {
      var a, b := r[1..], Toggled(ts[1..], id);
      assert forall i :: 0 <= i < |a| ==> a[i] == b[i];
    }
    CompletedCountCons(ts[0], ts[1..]);
    CompletedCountCons(r[0], r[1..]);
    if k == 0 {
      ToggledAbsent(ts[1..], id) by {
        forall i | 0 <= i < |ts| - 1 ensures Ids(ts[1..])[i] != id {
          assert ts[1..][i] in ts[1..];
        }
      }
    } else {
      assert ts[1..][k - 1] == ts[k];
      ToggledCount(ts[1..], k - 1);
    }
  }

  // ----- delete -----

  /** The list after clicking the delete button of task `id`: the list filtered down
      to the tasks whose id differs. The tasks kept are exactly those of another id. */
  function Deleted(ts: seq<Task>, id: string): (r: seq<Task>)
    ensures |r| <= |ts|
    ensures forall t :: t in r <==> t in ts && t.id != id
  {
    Filter(ts, (t: Task) => t.id != id)
  }

  /** Deletion keeps the survivors in their order and with all their copies, and
      removes every task with the id, duplicates included. */
  lemma DeletedSpec(ts: seq<Task>, id: string)
    ensures IsSubsequence(Deleted(ts, id), ts)
    ensures forall t :: multiset(Deleted(ts, id))[t] == if t.id != id then multiset(ts)[t] else 0
    ensures id !in Ids(Deleted(ts, id))
  {
    FilterIsSubsequence(ts, (t: Task) => t.id != id);
    forall t ensures multiset(Deleted(ts, id))[t] == if t.id != id then multiset(ts)[t] else 0 {
      FilterCount(ts, (t: Task) => t.id != id, t);
    }
    var r := Deleted(ts, id);
    forall i | 0 <= i < |r| ensures Ids(r)[i] != id {
      assert r[i] in r;
    }
  }

  /** Deleting an id that no task has changes nothing. */
  lemma DeletedAbsent(ts: seq<Task>, id: string)
    requires id !in Ids(ts)
    ensures Deleted(ts, id) == ts
  {
    forall t | t in ts ensures t.id != id {
      var j :| 0 <= j < |ts| && ts[j] == t;
      assert Ids(ts)[j] == t.id;
    }
    FilterKeepAll(ts, (t: Task) => t.id != id);
  }

  /** Deleting the same id twice is deleting it once, and toggling a deleted id is a
      no-op. */
  lemma DeletedThenAgain(ts: seq<Task>, id: string)
    ensures Deleted(Deleted(ts, id), id) == Deleted(ts, id)
    ensures Toggled(Deleted(ts, id), id) == Deleted(ts, id)
  {
    FilterIdempotent(ts, (t: Task) => t.id != id);
    DeletedSpec(ts, id);
    ToggledAbsent(Deleted(ts, id), id);
  }

  /** Removing tasks cannot create a clash of ids. */
  lemma {:induction false} DeletedKeepsUniqueIds(ts: seq<Task>, id: string)
    requires UniqueIds(ts)
    ensures UniqueIds(Deleted(ts, id))
  {
    if ts != [] {
      assert ts == [ts[0]] + ts[1..];
      UniqueIdsCons(ts[0], ts[1..]);
      DeletedKeepsUniqueIds(ts[1..], id);
      if ts[0].id != id {
        UniqueIdsCons(ts[0], Deleted(ts[1..], id));
      }
    }
  }

  // ----- titles -----

  /** Titles stay non-empty and trimmed: adding trims the new title and refuses a blank
      one, toggling touches only `completed`, and deleting only removes tasks. */
  lemma HandlersKeepTitlesTrimmed(ts: seq<Task>, title: string, id: string, today: string)
    requires TitlesTrimmed(ts)
    ensures TitlesTrimmed(Added(ts, title, id, today))
    ensures TitlesTrimmed(Toggled(ts, id))
    ensures TitlesTrimmed(Deleted(ts, id))
  {
    var a := Added(ts, title, id, today);
    forall t | t in a ensures t.title != [] && JsString.IsTrimmed(t.title) {
      if |a| > |ts| && t != a[0] {
        assert a == [a[0]] + ts;
      }
    }
    var g := Toggled(ts, id);
    forall t | t in g ensures t.title != [] && JsString.IsTrimmed(t.title) {
      var k :| 0 <= k < |g| && g[k] == t;
      assert ts[k] in ts;
    }
  }

  // ----- filter view -----

  /** Whether the view `f` shows task `t`. */
  predicate Shows(f: StatusFilter, t: Task)
  {
    match f
    case Active => !t.completed
    case Completed => t.completed
    case All => true
  }

  /** `filteredTasks`: the tasks the current filter shows, in list order. */
  function Visible(ts: seq<Task>, f: StatusFilter): (r: seq<Task>)
    ensures |r| <= |ts|
    ensures forall t :: t in r <==> t in ts && Shows(f, t)
  {
    Filter(ts, (t: Task) => Shows(f, t))
  }

  /** Every view is an order-preserving subsequence of the list that shows every copy
      of the tasks it selects; `All` is the list itself. */
  lemma VisibleSpec(ts: seq<Task>, f: StatusFilter)
    ensures IsSubsequence(Visible(ts, f), ts)
    ensures forall t :: multiset(Visible(ts, f))[t] == if Shows(f, t) then multiset(ts)[t] else 0
    ensures Visible(ts, All) == ts
  {
    FilterIsSubsequence(ts, (t: Task) => Shows(f, t));
    forall t ensures multiset(Visible(ts, f))[t] == if Shows(f, t) then multiset(ts)[t] else 0 {
      FilterCount(ts, (t: Task) => Shows(f, t), t);
    }
    FilterKeepAll(ts, (t: Task) => Shows(All, t));
  }

  /** The Active and Completed views split the list between them. */
  lemma VisiblePartition(ts: seq<Task>)
    ensures |Visible(ts, Active)| + |Visible(ts, Completed)| == |ts|
  {
    FilterPartition(ts, (t: Task) => Shows(Active, t), (t: Task) => Shows(Completed, t));
  }

  // ----- progress -----

  /** `completedCount`: the length of the list filtered down to its completed tasks,
      which is the size of the Completed view. */
  function CompletedCount(ts: seq<Task>): (n: nat)
    ensures n <= |ts|
    ensures n == |Visible(ts, Completed)|
  {
    FilterAgree(ts, (t: Task) => t.completed, (t: Task) => Shows(Completed, t));
    |Filter(ts, (t: Task) => t.completed)|
  }

  /** The count over a list with a head: the head adds one when it is completed. */
  lemma CompletedCountCons(x: Task, r: seq<Task>)
    ensures CompletedCount([x] + r) == CompletedCount(r) + if x.completed then 1 else 0
  {
    assert ([x] + r)[1..] == r;
  }

  /** No task is completed exactly when the count is 0, and all are exactly when the
      count is the length of the list. */
  lemma CompletedCountExtremes(ts: seq<Task>)
    ensures CompletedCount(ts) == 0 <==> forall t :: t in ts ==> !t.completed
    ensures CompletedCount(ts) == |ts| <==> forall t :: t in ts ==> t.completed
  {
    FilterKeepsLength(ts, (t: Task) => t.completed);
    var v := Filter(ts, (t: Task) => t.completed);
    if v != [] {
      assert v[0] in v;
    }
  }

  /** `Math.round(c / t * 100)` for `t > 0`, else 0, in integers: `r` is the whole
      number nearest to `100 * c / t`, halves going up. */
  function Percent(c: nat, t: nat): (r: nat)
    ensures t == 0 ==> r == 0
    ensures t > 0 ==> 2 * t * r <= 200 * c + t < 2 * t * r + 2 * t
  {
    if t > 0 then (200 * c + t) / (2 * t) else 0
  }

  /** The Progress figure of the page for list `ts`. */
  function Progress(ts: seq<Task>): (p: nat)
    ensures p <= 100
  {
    var c, t := CompletedCount(ts), |ts|;
    PercentAtMost100(c, t);
    Percent(c, t)
  }

  /** A share never rounds above 100 percent. */
  lemma PercentAtMost100(c: nat, t: nat)
    requires c <= t
    ensures Percent(c, t) <= 100
  {
    var r := Percent(c, t);
    MulMonotone(2 * t, if r > 100 then 101 else r, r);
  }

  /** `a * b <= a * c` for `b <= c` and `a >= 0`. */
  lemma MulMonotone(a: nat, b: nat, c: nat)
    requires b <= c
    ensures a * b <= a * c
  {
    assert a * c == a * b + a * (c - b);
  }

  /** Nothing done rounds to 0 percent. */
  lemma PercentNone(t: nat)
    ensures Percent(0, t) == 0
  {
  }

  /** Everything done is 100 percent. */
  lemma PercentAll(t: nat)
    requires t > 0
    ensures Percent(t, t) == 100
  {
    var r := Percent(t, t);
    PercentAtMost100(t, t);
    MulMonotone(2 * t, if r < 100 then r + 1 else 100, 100);
  }

  /** Progress is 0 for an empty list or when nothing is done, and 100 when every task
      of a non-empty list is done. */
  lemma ProgressExtremes(ts: seq<Task>)
    ensures (ts == [] || forall t :: t in ts ==> !t.completed) ==> Progress(ts) == 0
    ensures (ts != [] && forall t :: t in ts ==> t.completed) ==> Progress(ts) == 100
  {
    CompletedCountExtremes(ts);
    PercentNone(|ts|);
    if ts != [] {
      PercentAll(|ts|);
    }
  }

  /** Marking one more task as done never lowers the percentage. */
  lemma PercentMonotone(c1: nat, c2: nat, t: nat)
    requires c1 <= c2
    ensures Percent(c1, t) <= Percent(c2, t)
  {
    var r1, r2 := Percent(c1, t), Percent(c2, t);
    MulMonotone(2 * t, if r1 > r2 then r2 + 1 else r1, r1);
  }


  // ----- priority badge -----

  const HighClass: string := "bg-destructive text-destructive-foreground"
  const MediumClass: string := "bg-primary text-primary-foreground"
  const LowClass: string := "bg-muted text-muted-foreground"

  /** The priority as the page spells it. */
  function PriorityName(p: Priority): string
  {
    match p
    case Low => "low"
    case Medium => "medium"
    case High => "high"
  }

  /** `getPriorityColor`: the badge classes for a priority string; "low" and any
      unrecognised string share the muted style. */
  function PriorityColor(priority: string): (cls: string)
    ensures cls == HighClass <==> priority == "high"
    ensures cls == MediumClass <==> priority == "medium"
    ensures cls == LowClass <==> priority != "high" && priority != "medium"
  {
    if priority == "high" then HighClass
    else if priority == "medium" then MediumClass
    else if priority == "low" then LowClass
    else LowClass
  }

  /** The three priorities of a task get three different badges. */
  lemma PriorityColorDistinguishes(p: Priority, q: Priority)
    ensures PriorityColor(PriorityName(p)) == PriorityColor(PriorityName(q)) <==> p == q
  {
  }

  // ----- the seed list -----

  /** The seed ids are "1", "2" and "3", hence unique. */
  lemma SeedUniqueIds()
    ensures Ids(Seed()) == ["1", "2", "3"]
    ensures UniqueIds(Seed())
  {
  }

  /** The view of a list with a head: the head, if shown, then the view of the rest. */
  lemma VisibleCons(x: Task, r: seq<Task>, f: StatusFilter)
    ensures Visible([x] + r, f) == if Shows(f, x) then [x] + Visible(r, f) else Visible(r, f)
  {
    assert ([x] + r)[1..] == r;
  }

  /** The views of a three-task list whose middle task alone is done. */
  lemma ViewsOfThree(a: Task, b: Task, c: Task)
    requires !a.completed && b.completed && !c.completed
    ensures Visible([a, b, c], Active) == [a, c]
    ensures Visible([a, b, c], Completed) == [b]
  {
    assert [a, b, c] == [a] + ([b] + ([c] + []));
    VisibleCons(a, [b] + ([c] + []), Active);
    VisibleCons(b, [c] + [], Active);
    VisibleCons(c, [], Active);
    VisibleCons(a, [b] + ([c] + []), Completed);
    VisibleCons(b, [c] + [], Completed);
    VisibleCons(c, [], Completed);
  }

  /** On the seed list Active shows tasks 1 and 3, Completed shows task 2, and All
      shows 1, 2, 3, each in list order. */
  lemma SeedViews()
    ensures Visible(Seed(), Active) == [Seed()[0], Seed()[2]]
    ensures Visible(Seed(), Completed) == [Seed()[1]]
    ensures Visible(Seed(), All) == Seed()
  {
    var s := Seed();
    assert s == [s[0], s[1], s[2]];
    ViewsOfThree(s[0], s[1], s[2]);
    VisibleSpec(s, All);
  }


  /** One of the three seed tasks is done, which the page shows as 33%. */
  lemma SeedProgress()
    ensures CompletedCount(Seed()) == 1
    ensures Progress(Seed()) == 33
  {
    SeedViews();
  }
}
