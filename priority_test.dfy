/**
 * The priority scenario run against a pool with one worker and the vector
 * adapter: tasks are queued while the pool is paused, and once it resumes the
 * single worker takes them out one at a time, highest priority first.
 */
module PriorityTest {
  import opened PriorityTask
  import opened Heap
  import opened VectorQueue

  /**
   * What the one worker of the pool does after `resume`: pop and run tasks
   * until the queue is empty. The tasks come out in the order they were
   * popped, each one a maximum of what was left.
   */
  method Drain(q: TaskVector) returns (out: seq<Task>)
    requires q.Valid()
    modifies q.Repr
    ensures q.Valid() && q.Repr == old(q.Repr)
    ensures q.Empty()
    ensures multiset(out) == old(q.Contents())
    ensures NonIncreasing(out)
  {
    out := [];
    ghost var states := [q.Contents()];
    while !q.Empty()
      invariant q.Valid() && q.Repr == old(q.Repr)
      invariant PopChain(states, out)
      invariant states[0] == old(q.Contents()) && states[|out|] == q.Contents()
      decreases q.size
    {
      ghost var before := q.Contents();
      var t := q.Pop();
      assert PopsMax(before, t, q.Contents());
      out := out + [t];
      states := states + [q.Contents()];
      assert PopChain(states, out) by {
        forall i | 0 <= i < |out| ensures PopsMax(states[i], out[i], states[i + 1]) {
          if i < |out| - 1 {
            assert PopsMax(states[..|out|][i], out[..|out| - 1][i], states[..|out|][i + 1]);
          }
        }
      }
    }
    RepeatedPopsNonIncreasing(states, out);
    PopChainContents(states, out);
  }

  /** The values the callbacks of `tasks` append to `order`, in the order the tasks run. */
  function Ids(tasks: seq<Task>): seq<nat> {
    seq(|tasks|, i requires 0 <= i < |tasks| => tasks[i].id)
  }

  /** The tasks the test submits, in submission order: each callback appends its own priority. */
  function Submitted(): seq<Task> {
    [Task(1, 1), Task(2, 2), Task(3, 3), Task(6, 6), Task(4, 4), Task(5, 5)]
  }

  /** Each task's callback appends the task's own priority. */
  ghost predicate AppendsOwnPriority(tasks: seq<Task>) {
    forall k :: 0 <= k < |tasks| ==> tasks[k].id == tasks[k].priority as int
  }

  /**
   * When every callback appends its task's priority, any two non-increasing
   * runs of the same tasks append the same values: the priorities at each
   * position agree, and so do the values appended.
   */
  lemma RunsAppendAlike(out: seq<Task>, reference: seq<Task>)
    requires NonIncreasing(out) && NonIncreasing(reference) && multiset(out) == multiset(reference)
    requires AppendsOwnPriority(reference)
    ensures Ids(out) == Ids(reference)
  {
    NonIncreasingPrioritiesDetermined(out, reference);
    forall i | 0 <= i < |out| ensures out[i].id == reference[i].id {
      assert out[i] in multiset(reference);
      var k :| 0 <= k < |reference| && reference[k] == out[i];
    }
  }

  /** The submitted tasks from highest to lowest priority. */
  function HighestFirst(): seq<Task> {
    [Task(6, 6), Task(5, 5), Task(4, 4), Task(3, 3), Task(2, 2), Task(1, 1)]
  }

  /** `HighestFirst` is in non-increasing priority order, and each of its tasks appends its own priority. */
  lemma HighestFirstOrdered()
    ensures NonIncreasing(HighestFirst()) && AppendsOwnPriority(HighestFirst())
  {
    var r := HighestFirst();
    assert forall k :: 0 <= k < |r| ==> r[k] == Task(6 - k, (6 - k) as SizeT);
  }

  /** Run highest first, the callbacks append 6, 5, 4, 3, 2, 1. */
  lemma HighestFirstIds()
    ensures Ids(HighestFirst()) == [6, 5, 4, 3, 2, 1]
  {
    var ids := Ids(HighestFirst());
    assert ids[0] == 6 && ids[1] == 5 && ids[2] == 4 && ids[3] == 3 && ids[4] == 2 && ids[5] == 1;
  }

  /** `HighestFirst` holds exactly the submitted tasks. */
  lemma HighestFirstPermutesSubmitted()
    ensures multiset(HighestFirst()) == multiset(Submitted())
  {
  }

  /**
   * Whatever order a max-first worker runs the submitted tasks in, their
   * callbacks append 6, 5, 4, 3, 2, 1: the priorities are distinct, so the
   * order is fully determined.
   */
  lemma SubmittedRunHighestFirst(out: seq<Task>)
    requires NonIncreasing(out) && multiset(out) == multiset(Submitted())
    ensures Ids(out) == [6, 5, 4, 3, 2, 1]
  {
    var reference := HighestFirst();
    HighestFirstPermutesSubmitted();
    HighestFirstOrdered();
    RunsAppendAlike(out, reference);
    HighestFirstIds();
  }

  /**
   * The first half of the test: a fresh pool has no tasks, and while it is
   * paused the six tasks are submitted with priorities 1, 2, 3, 6, 4 and 5.
   */
  method SubmitWhilePaused() returns (q: TaskVector, tasksBefore: nat)
    ensures fresh(q) && fresh(q.Repr) && q.Valid()
    ensures tasksBefore == 0
    ensures q.Contents() == multiset(Submitted())
  {
    q := new TaskVector();
    tasksBefore := q.size;
    var tasks := Submitted();
    for i := 0 to |tasks|
      invariant q.Valid() && fresh(q.Repr)
      invariant q.Contents() == multiset(tasks[..i])
    {
      q.Emplace(tasks[i]);
      assert tasks[..i + 1] == tasks[..i] + [tasks[i]];
    }
    assert tasks[..|tasks|] == tasks;
  }

  /**
   * The test: a fresh pool has no tasks; tasks appending 1, 2, 3, 6, 4 and 5
   * are submitted with those priorities while paused; after `resume` they run
   * in the order 6, 5, 4, 3, 2, 1 and no task is left.
   */
  method PriorityOrderScenario() returns (tasksBefore: nat, order: seq<nat>, tasksAfter: nat)
    ensures tasksBefore == 0
    ensures order == [6, 5, 4, 3, 2, 1]
    ensures tasksAfter == 0
  {
    var q;
    q, tasksBefore := SubmitWhilePaused();
    var out := Drain(q);
    SubmittedRunHighestFirst(out);
    order := Ids(out);
    tasksAfter := q.size;
  }
}
