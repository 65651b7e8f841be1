/**
 * The pure part of the assigned-task list: which tasks are kept when a query
 * result arrives, and which of them are shown for the current search term.
 */
module TaskFilter {
  import opened Text

  /** One assigned task, reduced to the fields the list reads. */
  datatype Task = Task(id: string, title: string, status: string)

  /** The payload of the "tasks assigned to me" query: `data.tasks`. */
  datatype AssignedTasks = AssignedTasks(tasks: seq<Task>)

  /** The number of rows a limited list keeps (`slice(0, 5)`). */
  const Limit: nat := 5

  /**
   * The list kept from a query result: the first `Limit` tasks when the list is
   * limited (all of them when there are fewer), otherwise every task.
   */
  function Derive(tasks: seq<Task>, isLimited: bool): (r: seq<Task>)
    ensures r <= tasks
    ensures isLimited ==> |r| == (if |tasks| < Limit then |tasks| else Limit)
    ensures !isLimited ==> r == tasks
  {
    if isLimited then tasks[..if |tasks| < Limit then |tasks| else Limit] else tasks
  }

  /**
   * Whether a row is shown for the (already lower-cased) term: always for the
   * empty term, otherwise when the lower-cased title contains it or, failing
   * that, the lower-cased status does. The empty-term branch agrees with plain
   * substring search, since "" occurs in every string.
   */
  predicate Visible(task: Task, term: string)
    ensures Visible(task, term) <==>
              Contains(Lower(task.title), term) || Contains(Lower(task.status), term)
  {
    if term == "" then
      assert OccursAt(Lower(task.title), term, 0);
      true
    else if Contains(Lower(task.title), term) then true
    else Contains(Lower(task.status), term)
  }

  /**
   * The rows rendered for `tasks` and `term`: `tasks.map` returns a row for a
   * visible task and `undefined` otherwise, and the `undefined`s are dropped.
   */
  function Render(tasks: seq<Task>, term: string): (r: seq<Task>)
    ensures |r| <= |tasks|
  {
    if tasks == [] then []
    else (if Visible(tasks[0], term) then [tasks[0]] else []) + Render(tasks[1..], term)
  }

  /** A task is among the rendered rows exactly when it is in the list and visible. */
  lemma {:induction false} RenderMembership(tasks: seq<Task>, term: string, t: Task)
    ensures t in Render(tasks, term) <==> t in tasks && Visible(t, term)
  {
    if tasks != [] {
      RenderMembership(tasks[1..], term, t);
      assert tasks == [tasks[0]] + tasks[1..];
    }
  }

  /** Rendering a concatenation renders each part in turn. */
  lemma {:induction false} RenderAppend(a: seq<Task>, b: seq<Task>, term: string)
    ensures Render(a + b, term) == Render(a, term) + Render(b, term)
  {
    if a == [] {
      assert a + b == b;
    } else {
      var head := if Visible(a[0], term) then [a[0]] else [];
      assert (a + b)[0] == a[0] && (a + b)[1..] == a[1..] + b;
      assert Render(a + b, term) == head + Render(a[1..] + b, term);
      RenderAppend(a[1..], b, term);
    }
  }

  /** Rendering a single task shows it exactly when it is visible. */
  lemma RenderSingle(t: Task, term: string)
    ensures Render([t], term) == if Visible(t, term) then [t] else []
  {
  }

  /** With the empty term every task is rendered, in order. */
  lemma {:induction false} RenderEmptyTerm(tasks: seq<Task>)
    ensures Render(tasks, "") == tasks
  {
    if tasks != [] {
      RenderEmptyTerm(tasks[1..]);
      assert [tasks[0]] + tasks[1..] == tasks;
    }
  }

  /** The positions of the visible tasks among the first `n`, in increasing order. */
  ghost function VisibleIndices(tasks: seq<Task>, term: string, n: nat): seq<nat>
    requires n <= |tasks|
  {
    if n == 0 then []
    else VisibleIndices(tasks, term, n - 1) + (if Visible(tasks[n - 1], term) then [n - 1] else [])
  }

  /** The visible positions among the first `n` are below `n` and strictly increasing. */
  lemma {:induction false} VisibleIndicesOrdered(tasks: seq<Task>, term: string, n: nat)
    requires n <= |tasks|
    ensures forall k :: 0 <= k < |VisibleIndices(tasks, term, n)| ==> VisibleIndices(tasks, term, n)[k] < n
    ensures forall k, l :: 0 <= k < l < |VisibleIndices(tasks, term, n)| ==>
              VisibleIndices(tasks, term, n)[k] < VisibleIndices(tasks, term, n)[l]
  {
    if n > 0 {
      VisibleIndicesOrdered(tasks, term, n - 1);
      var ixPrev := VisibleIndices(tasks, term, n - 1);
      var lastIx: seq<nat> := if Visible(tasks[n - 1], term) then [n - 1] else [];
      var ix := VisibleIndices(tasks, term, n);
      assert ix == ixPrev + lastIx;
      forall k | 0 <= k < |ix|
        ensures ix[k] < n
      {
        if k < |ixPrev| {
          assert ix[k] == ixPrev[k];
        }
      }
      forall k, l | 0 <= k < l < |ix|
        ensures ix[k] < ix[l]
      {
        assert k < |ixPrev|;
        if l < |ixPrev| {
          assert ix[k] == ixPrev[k] && ix[l] == ixPrev[l];
          assert ixPrev[k] < ixPrev[l];
        } else {
          assert ix[k] == ixPrev[k] && ixPrev[k] < n - 1 && ix[l] == n - 1;
        }
      }
    }
  }

  /** The visible positions among the first `n` are exactly the positions of visible tasks. */
  lemma {:induction false} VisibleIndicesExact(tasks: seq<Task>, term: string, n: nat)
    requires n <= |tasks|
    ensures forall i :: 0 <= i < n ==> (i in VisibleIndices(tasks, term, n) <==> Visible(tasks[i], term))
  {
    if n > 0 {
      VisibleIndicesExact(tasks, term, n - 1);
      VisibleIndicesOrdered(tasks, term, n - 1);
      var ixPrev := VisibleIndices(tasks, term, n - 1);
      var lastIx: seq<nat> := if Visible(tasks[n - 1], term) then [n - 1] else [];
      var ix := VisibleIndices(tasks, term, n);
      assert ix == ixPrev + lastIx;
      forall i | 0 <= i < n
        ensures i in ix <==> Visible(tasks[i], term)
      {
        assert i in ix <==> i in ixPrev || i in lastIx;
        if i == n - 1 {
          assert i !in ixPrev by {
            forall k | 0 <= k < |ixPrev| ensures ixPrev[k] != i {
              assert ixPrev[k] < n - 1;
            }
          }
        } else {
          assert i !in lastIx;
          assert i in ixPrev <==> Visible(tasks[i], term);
        }
      }
    }
  }

  /**
   * Rendering the first `n` tasks yields one row per visible position among
   * them: the k-th row is the task at the k-th visible position.
   */
  lemma {:induction false} RenderPrefixSelects(tasks: seq<Task>, term: string, n: nat)
    requires n <= |tasks|
    ensures |Render(tasks[..n], term)| == |VisibleIndices(tasks, term, n)|
    ensures forall k :: 0 <= k < |VisibleIndices(tasks, term, n)| ==>
              VisibleIndices(tasks, term, n)[k] < |tasks| &&
              Render(tasks[..n], term)[k] == tasks[VisibleIndices(tasks, term, n)[k]]
  {
    if n > 0 {
      var x := tasks[n - 1];
      var prev, ixPrev := Render(tasks[..n - 1], term), VisibleIndices(tasks, term, n - 1);
      var last := if Visible(x, term) then [x] else [];
      var lastIx: seq<nat> := if Visible(x, term) then [n - 1] else [];
      RenderPrefixSelects(tasks, term, n - 1);
      var r, ix := Render(tasks[..n], term), VisibleIndices(tasks, term, n);
      assert r == prev + last by {
        assert tasks[..n] == tasks[..n - 1] + [x];
        RenderAppend(tasks[..n - 1], [x], term);
        RenderSingle(x, term);
      }
      assert ix == ixPrev + lastIx;
      forall k | 0 <= k < |ix|
        ensures ix[k] < |tasks| && r[k] == tasks[ix[k]]
      {
        if k < |ixPrev| {
          assert ix[k] == ixPrev[k] && r[k] == prev[k];
        } else {
          assert ix[k] == n - 1 && r[k] == x;
        }
      }
    }
  }

  /**
   * The rendered rows are the visible tasks of the list and nothing else, each
   * at its original relative position: row k is the task at the k-th visible index.
   */
  lemma RenderIsOrderedFilter(tasks: seq<Task>, term: string)
    ensures var r, ix := Render(tasks, term), VisibleIndices(tasks, term, |tasks|);
      |r| == |ix| &&
      (forall k :: 0 <= k < |ix| ==> ix[k] < |tasks| && r[k] == tasks[ix[k]]) &&
      (forall k, l :: 0 <= k < l < |ix| ==> ix[k] < ix[l]) &&
      (forall i :: 0 <= i < |tasks| ==> (i in ix <==> Visible(tasks[i], term)))
  {
    RenderPrefixSelects(tasks, term, |tasks|);
    VisibleIndicesOrdered(tasks, term, |tasks|);
    VisibleIndicesExact(tasks, term, |tasks|);
    assert tasks[..|tasks|] == tasks;
  }

  /**
   * For the term "assign", "Write report" and "Fix bug" miss on their titles;
   * "assigned" matches on its status, "done" does not.
   */
  lemma ExampleAssignFieldMatches()
    ensures !Contains(Lower("Write report"), "assign") && Contains(Lower("assigned"), "assign")
    ensures !Contains(Lower("Fix bug"), "assign") && !Contains(Lower("done"), "assign")
  {
    LowerAbsent("Write report", 'a');
    FirstCharAbsent(Lower("Write report"), "assign");
    LowerAbsent("Fix bug", 'a');
    FirstCharAbsent(Lower("Fix bug"), "assign");
    assert OccursAt(Lower("assigned"), "assign", 0);
  }

  /** Searching "assign" over a report that is assigned and a bug that is done shows the report only. */
  lemma ExampleSearchAssign()
    ensures Render([Task("1", "Write report", "assigned"), Task("2", "Fix bug", "done")], "assign")
         == [Task("1", "Write report", "assigned")]
  {
    var report, bug := Task("1", "Write report", "assigned"), Task("2", "Fix bug", "done");
    ExampleAssignFieldMatches();
    assert Visible(report, "assign") && !Visible(bug, "assign");
    RenderAppend([report], [bug], "assign");
    RenderSingle(report, "assign");
    RenderSingle(bug, "assign");
    assert [report, bug] == [report] + [bug];
  }

  /** A limited list of eight tasks keeps the first five, in their order. */
  lemma ExampleLimitEight(tasks: seq<Task>)
    requires |tasks| == 8
    ensures Derive(tasks, true) == [tasks[0], tasks[1], tasks[2], tasks[3], tasks[4]]
  {
  }
}
