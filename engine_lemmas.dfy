/**
 * What the engine guarantees: the attempt budget, fail-fast, what is recorded
 * and in which order, the run-dependency chain, and the shape of the
 * dependency context.
 */
module EngineLemmas {

  import opened Wrappers
  import opened Text
  import opened Types
  import OD = OrderedDict
  import Roster
  import Plan
  import FinalAnswer
  import opened Engine

  // ---------------------------------------------------------------------
  // Counting calls and following the run-dependency chain
  // ---------------------------------------------------------------------

  function ManagerCalls(calls: seq<Call>): nat
    decreases |calls|
  {
    if calls == [] then 0 else (if calls[0].ManagerCall? then 1 else 0) + ManagerCalls(calls[1..])
  }

  function AgentCalls(calls: seq<Call>): nat
    decreases |calls|
  {
    if calls == [] then 0 else (if calls[0].AgentCall? then 1 else 0) + AgentCalls(calls[1..])
  }

  lemma {:induction false} CountAppend(a: seq<Call>, b: seq<Call>)
    ensures ManagerCalls(a + b) == ManagerCalls(a) + ManagerCalls(b)
    ensures AgentCalls(a + b) == AgentCalls(a) + AgentCalls(b)
    decreases |a|
  {
    if a == [] {
      assert a + b == b;
    } else {
      assert (a + b)[0] == a[0];
      assert (a + b)[1..] == a[1..] + b;
      CountAppend(a[1..], b);
    }
  }

  /** `after` is `before` with calls appended. */
  predicate Extends(before: seq<Call>, after: seq<Call>) {
    |before| <= |after| && after[..|before|] == before
  }

  /** Each call was given, as `run_depends`, the node of the call before it; the first one was given `first`. */
  predicate Chained(calls: seq<Call>, first: seq<NodeRef>)
    decreases |calls|
  {
    calls == [] || (calls[0].dependsOn == first && Chained(calls[1..], [calls[0].Node()]))
  }

  /** `_run_depends` after the calls: the node of the last one, or `first` when there were none. */
  function Tip(calls: seq<Call>, first: seq<NodeRef>): seq<NodeRef> {
    if calls == [] then first else [calls[|calls| - 1].Node()]
  }

  lemma {:induction false} ChainedAppend(a: seq<Call>, b: seq<Call>, first: seq<NodeRef>)
    requires Chained(a, first) && Chained(b, Tip(a, first))
    ensures Chained(a + b, first)
    ensures Tip(a + b, first) == Tip(b, Tip(a, first))
    decreases |a|
  {
    if a == [] {
      assert a + b == b;
    } else {
      assert (a + b)[0] == a[0];
      assert (a + b)[1..] == a[1..] + b;
      if |a| > 1 {
        assert Tip(a[1..], [a[0].Node()]) == Tip(a, first);
      }
      ChainedAppend(a[1..], b, [a[0].Node()]);
    }
  }

  // ---------------------------------------------------------------------
  // One task: the retry loop
  // ---------------------------------------------------------------------

  /** The three ways one attempt ends, as changes to the call log and to `_run_depends`. */
  lemma AttemptStep(crew: Crew, inputTask: string, s: Run, task: Task, prompt: string, left: nat)
    requires WellFormed(crew, s) && left >= 1
    ensures var o := Attempts(crew, inputTask, s, task, prompt, left);
      var reply := ManagerAnswer(s);
      var request := AssignRequest(inputTask, prompt, crew.roster);
      var m := ManagerCall(request, s.runDepends);
      && (Dispatches(crew, reply) ==>
            && o.run.calls == s.calls + [m, AgentCall(ChosenIndex(reply), prompt, [ManagerNode])]
            && o.run.runDepends == [AgentNode(ChosenIndex(reply))]
            && !o.Exhausted())
      && (!Dispatches(crew, reply) && left == 1 ==>
            && o.run.calls == s.calls + [m]
            && o.run.runDepends == [ManagerNode]
            && o.Exhausted())
      && (!Dispatches(crew, reply) && left > 1 ==>
            o == Attempts(crew, inputTask, AfterManagerCall(s, request), task, prompt + Feedback(reply), left - 1))
  {
  }

  /** The retry loop only appends to the call log, and its first call asks the manager to assign the task. */
  lemma {:induction false} AttemptsExtends(crew: Crew, inputTask: string, s: Run, task: Task, prompt: string, left: nat)
    requires WellFormed(crew, s) && left >= 1
    ensures var o := Attempts(crew, inputTask, s, task, prompt, left);
      && Extends(s.calls, o.run.calls) && |s.calls| < |o.run.calls|
      && o.run.calls[|s.calls|]
         == ManagerCall(AssignRequest(inputTask, prompt, crew.roster), s.runDepends)
    decreases left
  {
    AttemptStep(crew, inputTask, s, task, prompt, left);
    var reply := ManagerAnswer(s);
    var s1 := AfterManagerCall(s, AssignRequest(inputTask, prompt, crew.roster));
    if !Dispatches(crew, reply) && left > 1 {
      AttemptsExtends(crew, inputTask, s1, task, prompt + Feedback(reply), left - 1);
      var o := Attempts(crew, inputTask, s, task, prompt, left);
      assert o.run.calls[..|s.calls|] == o.run.calls[..|s1.calls|][..|s.calls|];
      assert o.run.calls[|s.calls|] == o.run.calls[..|s1.calls|][|s.calls|];
    }
  }

  /** The calls of an attempt that dispatched, or of a last attempt that did not. */
  lemma CountLast(before: seq<Call>, after: seq<Call>, m: Call, a: Call)
    requires m.ManagerCall? && a.AgentCall?
    requires after == before + [m, a] || after == before + [m]
    ensures |before| < |after|
    ensures var extra := after[|before|..];
      && ManagerCalls(extra) == 1
      && AgentCalls(extra) == (if after == before + [m] then 0 else 1)
      && (after != before + [m] ==> extra[|extra| - 1].AgentCall?)
  {
    assert [a][1..] == [] && [m][1..] == [];
    assert ManagerCalls([a]) == 0 && AgentCalls([a]) == 1;
    assert ManagerCalls([m]) == 1 && AgentCalls([m]) == 0;
    assert [m, a][1..] == [a];
    if after == before + [m] {
      assert after[|before|..] == [m];
    } else {
      assert after[|before|..] == [m, a];
    }
  }

  /** The calls of an attempt that did not dispatch, followed by those of the attempts after it. */
  lemma CountRetry(before: seq<Call>, after: seq<Call>, m: Call, left: nat)
    requires m.ManagerCall? && left >= 2
    requires |before| + 1 < |after| && after[..|before| + 1] == before + [m]
    requires var rest := after[|before| + 1..];
      && 1 <= ManagerCalls(rest) <= left - 1
      && AgentCalls(rest) <= 1
    ensures var extra := after[|before|..];
      && var rest := after[|before| + 1..];
      && 2 <= ManagerCalls(extra) <= left
      && ManagerCalls(extra) == 1 + ManagerCalls(rest)
      && AgentCalls(extra) == AgentCalls(rest)
      && extra[|extra| - 1] == rest[|rest| - 1]
  {
    var extra := after[|before|..];
    var rest := after[|before| + 1..];
    assert extra[0] == m;
    assert extra[1..] == rest;
  }

  /** The budget of a retry loop with `left` attempts, for the calls it appended to `before`. */
  ghost predicate Budget(before: seq<Call>, after: seq<Call>, left: nat, exhausted: bool) {
    && |before| < |after|
    && var extra := after[|before|..];
    && 1 <= ManagerCalls(extra) <= left
    && AgentCalls(extra) == (if exhausted then 0 else 1)
    && (exhausted ==> ManagerCalls(extra) == left)
    && (!exhausted ==> extra[|extra| - 1].AgentCall?)
  }

  /** The budget of an attempt that dispatched, or of a last attempt that did not. */
  lemma BudgetLast(before: seq<Call>, after: seq<Call>, m: Call, a: Call, left: nat, exhausted: bool)
    requires m.ManagerCall? && a.AgentCall? && left >= 1
    requires (after == before + [m, a] && !exhausted) || (after == before + [m] && exhausted && left == 1)
    ensures Budget(before, after, left, exhausted)
  {
    CountLast(before, after, m, a);
  }

  /** The budget of an attempt that did not dispatch, followed by the budget of the attempts after it. */
  lemma BudgetRetry(before: seq<Call>, after: seq<Call>, m: Call, left: nat, exhausted: bool)
    requires m.ManagerCall? && left >= 2
    requires |before| + 1 <= |after| && after[..|before| + 1] == before + [m]
    requires Budget(before + [m], after, left - 1, exhausted)
    ensures Budget(before, after, left, exhausted)
  {
    CountRetry(before, after, m, left);
  }

  /**
   * The calls of one task's retry loop: at least one and at most `left` manager
   * calls; one worker call unless every attempt failed, in which case the
   * manager was asked exactly `left` times; a dispatched worker's call is the
   * last one.
   */
  lemma {:induction false} AttemptsBudget(crew: Crew, inputTask: string, s: Run, task: Task, prompt: string, left: nat)
    requires WellFormed(crew, s) && left >= 1
    ensures var o := Attempts(crew, inputTask, s, task, prompt, left);
      && |s.calls| < |o.run.calls|
      && var extra := o.run.calls[|s.calls|..];
      && 1 <= ManagerCalls(extra) <= left
      && AgentCalls(extra) == (if o.Exhausted() then 0 else 1)
      && (o.Exhausted() ==> ManagerCalls(extra) == left)
      && (!o.Exhausted() ==> extra[|extra| - 1].AgentCall?)
    decreases left
  {
    var o := Attempts(crew, inputTask, s, task, prompt, left);
    AttemptStep(crew, inputTask, s, task, prompt, left);
    var reply := ManagerAnswer(s);
    var request := AssignRequest(inputTask, prompt, crew.roster);
    var m := ManagerCall(request, s.runDepends);
    if Dispatches(crew, reply) {
      BudgetLast(s.calls, o.run.calls, m, AgentCall(ChosenIndex(reply), prompt, [ManagerNode]), left, o.Exhausted());
    } else if left == 1 {
      BudgetLast(s.calls, o.run.calls, m, AgentCall(0, "", []), left, o.Exhausted());
    } else {
      var s1 := AfterManagerCall(s, request);
      var next := prompt + Feedback(reply);
      AttemptsBudget(crew, inputTask, s1, task, next, left - 1);
      AttemptsExtends(crew, inputTask, s1, task, next, left - 1);
      assert o.run.calls[..|s.calls| + 1] == s.calls + [m];
      BudgetRetry(s.calls, o.run.calls, m, left, o.Exhausted());
    }
  }

  /** The chain of an attempt that dispatched, or of a last attempt that did not. */
  lemma ChainLast(before: seq<Call>, after: seq<Call>, m: Call, a: Call, first: seq<NodeRef>)
    requires m.dependsOn == first && a.dependsOn == [m.Node()]
    requires after == before + [m, a] || after == before + [m]
    ensures |before| <= |after|
    ensures Chained(after[|before|..], first)
    ensures Tip(after[|before|..], first) == (if after == before + [m] then [m.Node()] else [a.Node()])
  {
    assert [a][1..] == [] && [m][1..] == [] && [m, a][1..] == [a];
    assert Chained([a], [m.Node()]);
    if after == before + [m] {
      assert after[|before|..] == [m];
    } else {
      assert after[|before|..] == [m, a];
    }
  }

  /** The chain of an attempt that did not dispatch, followed by that of the attempts after it. */
  lemma ChainRetry(before: seq<Call>, after: seq<Call>, m: Call, first: seq<NodeRef>)
    requires m.dependsOn == first
    requires |before| + 1 < |after| && after[..|before| + 1] == before + [m]
    requires Chained(after[|before| + 1..], [m.Node()])
    ensures Chained(after[|before|..], first)
    ensures Tip(after[|before|..], first) == Tip(after[|before| + 1..], [m.Node()])
  {
    var extra := after[|before|..];
    var rest := after[|before| + 1..];
    assert extra[0] == m;
    assert extra[1..] == rest;
    assert extra[|extra| - 1] == rest[|rest| - 1];
  }

  /** Each call of the retry loop depends on the one before it, and `_run_depends` ends on the last. */
  lemma {:induction false} AttemptsChain(crew: Crew, inputTask: string, s: Run, task: Task, prompt: string, left: nat)
    requires WellFormed(crew, s) && left >= 1
    ensures var o := Attempts(crew, inputTask, s, task, prompt, left);
      && |s.calls| <= |o.run.calls|
      && Chained(o.run.calls[|s.calls|..], s.runDepends)
      && o.run.runDepends == Tip(o.run.calls[|s.calls|..], s.runDepends)
    decreases left
  {
    AttemptStep(crew, inputTask, s, task, prompt, left);
    AttemptsExtends(crew, inputTask, s, task, prompt, left);
    var reply := ManagerAnswer(s);
    var request := AssignRequest(inputTask, prompt, crew.roster);
    var m := ManagerCall(request, s.runDepends);
    if Dispatches(crew, reply) {
      var o := Attempts(crew, inputTask, s, task, prompt, left);
      ChainLast(s.calls, o.run.calls, m, AgentCall(ChosenIndex(reply), prompt, [ManagerNode]), s.runDepends);
    } else if left == 1 {
      var o := Attempts(crew, inputTask, s, task, prompt, left);
      ChainLast(s.calls, o.run.calls, m, AgentCall(0, "", [ManagerNode]), s.runDepends);
    } else {
      var s1 := AfterManagerCall(s, request);
      var next := prompt + Feedback(reply);
      var o1 := Attempts(crew, inputTask, s1, task, next, left - 1);
      AttemptsChain(crew, inputTask, s1, task, next, left - 1);
      AttemptsExtends(crew, inputTask, s1, task, next, left - 1);
      assert o1.run.calls[..|s.calls| + 1] == s.calls + [m];
      ChainRetry(s.calls, o1.run.calls, m, s.runDepends);
    }
  }

  /**
   * What one task's retry loop records: nothing when it raises, which it does
   * for this task; when it succeeds, the content of the successful reply of the
   * worker it dispatched to, under the task's id. That worker's reply is the
   * first of its script, it is consumed, and the worker's call is the last call.
   */
  lemma {:induction false} AttemptsResults(crew: Crew, inputTask: string, s: Run, task: Task, prompt: string, left: nat)
    returns (index: nat, content: string)
    requires WellFormed(crew, s) && left >= 1
    ensures var o := Attempts(crew, inputTask, s, task, prompt, left);
      && (o.error.Some? ==> o.run.results == s.results)
      && (o.error.Some? ==> (o.error.value.AssignmentFailed? || o.error.value.WorkerFailed?) && o.error.value.taskId == task.id)
      && (o.error.None? ==> WorkerRecorded(crew, s, o.run, task, index, content))
    decreases left
  {
    index, content := 0, "";
    var reply := ManagerAnswer(s);
    var request := AssignRequest(inputTask, prompt, crew.roster);
    var s1 := AfterManagerCall(s, request);
    if Dispatches(crew, reply) {
      index := ChosenIndex(reply);
      content := AgentAnswer(s1, index).content;
    } else if left > 1 {
      index, content := AttemptsResults(crew, inputTask, s1, task, prompt + Feedback(reply), left - 1);
    }
  }

  /**
   * Worker `index` of the roster gave the successful reply `content` as the
   * first of its script, which `after` has consumed; `after` records that
   * content under the task's id, and its last call is that worker's.
   */
  ghost predicate WorkerRecorded(crew: Crew, before: Run, after: Run, task: Task, index: nat, content: string) {
    && OD.Valid(before.results)
    && index < |crew.agentNames| && index < |before.agentScripts|
    && before.agentScripts[index] != [] && before.agentScripts[index][0] == AgentReply(Succeeded, content)
    && after.agentScripts == before.agentScripts[index := before.agentScripts[index][1..]]
    && after.results == OD.Put(before.results, task.id, Entry(task.name, content))
    && |after.calls| > 0 && after.calls[|after.calls| - 1].AgentCall? && after.calls[|after.calls| - 1].index == index
  }

  /** The notes the failed attempts leave in the prompt, oldest first. */
  function Feedbacks(replies: seq<ManagerReply>): string
    decreases |replies|
  {
    if replies == [] then "" else Feedback(replies[0]) + Feedbacks(replies[1..])
  }

  lemma FeedbacksShift(prompt: string, script: seq<ManagerReply>, k: nat)
    requires 1 <= k <= |script|
    ensures prompt + Feedback(script[0]) + Feedbacks(script[1..][..k - 1]) == prompt + Feedbacks(script[..k])
  {
    assert script[..k][0] == script[0];
    assert script[..k][1..] == script[1..][..k - 1];
  }

  /**
   * A manager that never names a usable worker: after exactly `left` attempts
   * the task fails, quoting the last reply, no worker is called and nothing is
   * recorded. Attempt `k` is sent the prompt followed by the notes of the `k`
   * attempts before it.
   */
  lemma {:induction false} AlwaysRejected(crew: Crew, inputTask: string, s: Run, task: Task, prompt: string, left: nat)
    requires WellFormed(crew, s) && left >= 1 && |s.managerScript| >= left
    requires forall k :: 0 <= k < left ==> !Dispatches(crew, s.managerScript[k])
    ensures var o := Attempts(crew, inputTask, s, task, prompt, left);
      && o.error == Some(AssignmentFailed(task.id, s.managerScript[left - 1].rendered))
      && o.run.results == s.results && o.run.agentScripts == s.agentScripts
      && |o.run.calls| == |s.calls| + left && o.run.calls[..|s.calls|] == s.calls
      && forall k :: 0 <= k < left ==>
           o.run.calls[|s.calls| + k]
           == ManagerCall(AssignRequest(inputTask, prompt + Feedbacks(s.managerScript[..k]),
                                        crew.roster),
                          if k == 0 then s.runDepends else [ManagerNode])
    decreases left
  {
    var o := Attempts(crew, inputTask, s, task, prompt, left);
    var roster := crew.roster;
    var reply := s.managerScript[0];
    assert !Dispatches(crew, reply);
    var s1 := AfterManagerCall(s, AssignRequest(inputTask, prompt, roster));
    var m := ManagerCall(AssignRequest(inputTask, prompt, roster), s.runDepends);
    assert s1.calls == s.calls + [m];
    assert Feedbacks(s.managerScript[..0]) == "" by {
      assert s.managerScript[..0] == [];
    }
    assert prompt + "" == prompt;
    if left > 1 {
      var next := prompt + Feedback(reply);
      assert forall k :: 0 <= k < left - 1 ==> s1.managerScript[k] == s.managerScript[k + 1];
      AlwaysRejected(crew, inputTask, s1, task, next, left - 1);
      assert o == Attempts(crew, inputTask, s1, task, next, left - 1);
      RejectedCalls(s.calls, o.run.calls, inputTask, prompt, roster, s.managerScript, s.runDepends, left);
    }
  }

  /** The calls of the later attempts, shifted by the first one. */
  lemma RejectedCalls(prev: seq<Call>, calls: seq<Call>, inputTask: string, prompt: string, roster: string,
                      script: seq<ManagerReply>, first: seq<NodeRef>, left: nat)
    requires 2 <= left <= |script|
    requires var m := ManagerCall(AssignRequest(inputTask, prompt, roster), first);
      |calls| == |prev| + 1 + (left - 1) && calls[..|prev| + 1] == prev + [m]
    requires var n := |prev| + 1; var next := prompt + Feedback(script[0]);
      forall k :: 0 <= k < left - 1 ==>
        calls[n + k] == ManagerCall(AssignRequest(inputTask, next + Feedbacks(script[1..][..k]), roster), [ManagerNode])
    ensures calls[..|prev|] == prev
    ensures forall k :: 0 <= k < left ==>
      calls[|prev| + k]
      == ManagerCall(AssignRequest(inputTask, prompt + Feedbacks(script[..k]), roster), if k == 0 then first else [ManagerNode])
  {
    assert calls[..|prev|] == calls[..|prev| + 1][..|prev|];
    assert calls[|prev|] == calls[..|prev| + 1][|prev|];
    assert Feedbacks(script[..0]) == "" by {
      assert script[..0] == [];
    }
    assert prompt + "" == prompt;
    forall k | 1 <= k < left
      ensures calls[|prev| + k]
           == ManagerCall(AssignRequest(inputTask, prompt + Feedbacks(script[..k]), roster), [ManagerNode])
    {
      assert calls[|prev| + k] == calls[|prev| + 1 + (k - 1)];
      FeedbacksShift(prompt, script, k);
    }
  }

  // ---------------------------------------------------------------------
  // The task list: run_tasks
  // ---------------------------------------------------------------------

  lemma ExtendsTrans(a: seq<Call>, b: seq<Call>, c: seq<Call>)
    requires Extends(a, b) && Extends(b, c)
    ensures Extends(a, c) && c[|a|..] == b[|a|..] + c[|b|..]
  {
    assert c[..|a|] == c[..|b|][..|a|];
  }

  /** One task only appends to the call log, at least one call. */
  lemma TaskExtends(crew: Crew, inputTask: string, s: Run, t: Task)
    requires WellFormed(crew, s) && crew.maxLoops >= 1
    ensures var o := RunTask(crew, inputTask, s, t);
      Extends(s.calls, o.run.calls) && |s.calls| < |o.run.calls|
  {
    AttemptsExtends(crew, inputTask, s, t, TaskPrompt(t, DependencyContext(s.results, t.dependencies)), crew.maxLoops);
  }

  /** One task's first call asks the manager to assign it, with the prompt built from the results so far. */
  lemma TaskFirstCall(crew: Crew, inputTask: string, s: Run, t: Task)
    requires WellFormed(crew, s) && crew.maxLoops >= 1
    ensures var o := RunTask(crew, inputTask, s, t);
      && |s.calls| < |o.run.calls|
      && o.run.calls[|s.calls|]
         == ManagerCall(AssignRequest(inputTask, TaskPrompt(t, DependencyContext(s.results, t.dependencies)),
                                      crew.roster),
                        s.runDepends)
  {
    AttemptsExtends(crew, inputTask, s, t, TaskPrompt(t, DependencyContext(s.results, t.dependencies)), crew.maxLoops);
  }

  /** One task's budget: at most `max_loops` manager calls, one worker call exactly when it did not raise. */
  lemma TaskBudget(crew: Crew, inputTask: string, s: Run, t: Task)
    requires WellFormed(crew, s) && crew.maxLoops >= 1
    ensures var o := RunTask(crew, inputTask, s, t);
      && |s.calls| <= |o.run.calls|
      && ManagerCalls(o.run.calls[|s.calls|..]) <= crew.maxLoops
      && AgentCalls(o.run.calls[|s.calls|..]) <= 1
      && (o.error.None? ==> AgentCalls(o.run.calls[|s.calls|..]) == 1)
  {
    var prompt := TaskPrompt(t, DependencyContext(s.results, t.dependencies));
    AttemptsBudget(crew, inputTask, s, t, prompt, crew.maxLoops);
    var _, _ := AttemptsResults(crew, inputTask, s, t, prompt, crew.maxLoops);
  }

  lemma TaskManagerBudget(crew: Crew, inputTask: string, s: Run, t: Task)
    requires WellFormed(crew, s) && crew.maxLoops >= 1
    ensures var o := RunTask(crew, inputTask, s, t);
      |s.calls| <= |o.run.calls| && ManagerCalls(o.run.calls[|s.calls|..]) <= crew.maxLoops
  {
    TaskBudget(crew, inputTask, s, t);
  }

  /** One task keeps the calls chained. */
  lemma TaskChain(crew: Crew, inputTask: string, s: Run, t: Task)
    requires WellFormed(crew, s) && crew.maxLoops >= 1
    ensures var o := RunTask(crew, inputTask, s, t);
      && |s.calls| <= |o.run.calls|
      && Chained(o.run.calls[|s.calls|..], s.runDepends)
      && o.run.runDepends == Tip(o.run.calls[|s.calls|..], s.runDepends)
  {
    AttemptsChain(crew, inputTask, s, t, TaskPrompt(t, DependencyContext(s.results, t.dependencies)), crew.maxLoops);
  }

  /**
   * One task records the content of its dispatched worker's successful reply
   * under its id, or raises with its id and records nothing.
   */
  lemma TaskResults(crew: Crew, inputTask: string, s: Run, t: Task) returns (index: nat, content: string)
    requires WellFormed(crew, s) && crew.maxLoops >= 1
    ensures var o := RunTask(crew, inputTask, s, t);
      && (o.error.Some? ==> o.run.results == s.results)
      && (o.error.Some? ==> (o.error.value.AssignmentFailed? || o.error.value.WorkerFailed?) && o.error.value.taskId == t.id)
      && (o.error.None? ==> WorkerRecorded(crew, s, o.run, t, index, content))
  {
    index, content := AttemptsResults(crew, inputTask, s, t, TaskPrompt(t, DependencyContext(s.results, t.dependencies)), crew.maxLoops);
  }

  /** Running the tasks only appends to the call log. */
  lemma {:induction false} ExecuteExtends(crew: Crew, inputTask: string, s: Run, tasks: seq<Task>)
    requires WellFormed(crew, s) && crew.maxLoops >= 1
    ensures Extends(s.calls, ExecuteTasks(crew, inputTask, s, tasks).run.calls)
    decreases |tasks|
  {
    if tasks != [] {
      var first := RunTask(crew, inputTask, s, tasks[0]);
      TaskExtends(crew, inputTask, s, tasks[0]);
      ExecuteTasksStep(crew, inputTask, s, tasks);
      if first.error.None? {
        ExecuteExtends(crew, inputTask, first.run, tasks[1..]);
        ExtendsTrans(s.calls, first.run.calls, ExecuteTasks(crew, inputTask, first.run, tasks[1..]).run.calls);
      }
    }
  }

  lemma ManagerBudgetFirst(before: seq<Call>, after: seq<Call>, l: nat, n: nat)
    requires n >= 1 && |before| <= |after| && ManagerCalls(after[|before|..]) <= l
    ensures ManagerCalls(after[|before|..]) <= l * n
  {
    MulStep(l, n);
  }

  lemma MulStep(l: nat, n: nat)
    requires n >= 1
    ensures l <= l * n && l * n == l + l * (n - 1)
  {
  }

  lemma ManagerBudgetStep(before: seq<Call>, mid: seq<Call>, after: seq<Call>, l: nat, m: nat, n: nat)
    requires n == m + 1 && Extends(before, mid) && Extends(mid, after)
    requires ManagerCalls(mid[|before|..]) <= l
    requires ManagerCalls(after[|mid|..]) <= l * m
    ensures |before| <= |after| && ManagerCalls(after[|before|..]) <= l * n
  {
    MulStep(l, n);
    ExtendsTrans(before, mid, after);
    CountAppend(mid[|before|..], after[|mid|..]);
  }

  lemma AgentBudgetStep(before: seq<Call>, mid: seq<Call>, after: seq<Call>, n: nat, ok: bool)
    requires n >= 1 && Extends(before, mid) && Extends(mid, after)
    requires AgentCalls(mid[|before|..]) == 1
    requires AgentCalls(after[|mid|..]) <= n - 1 && (ok ==> AgentCalls(after[|mid|..]) == n - 1)
    ensures |before| <= |after| && AgentCalls(after[|before|..]) <= n
    ensures ok ==> AgentCalls(after[|before|..]) == n
  {
    ExtendsTrans(before, mid, after);
    CountAppend(mid[|before|..], after[|mid|..]);
  }

  /** The manager is called at most `max_loops` times per task. */
  lemma {:induction false} ExecuteManagerBudget(crew: Crew, inputTask: string, s: Run, tasks: seq<Task>)
    requires WellFormed(crew, s) && crew.maxLoops >= 1
    ensures var o := ExecuteTasks(crew, inputTask, s, tasks);
      |s.calls| <= |o.run.calls| && ManagerCalls(o.run.calls[|s.calls|..]) <= crew.maxLoops * |tasks|
    decreases |tasks|
  {
    ExecuteExtends(crew, inputTask, s, tasks);
    if tasks == [] {
      var o := ExecuteTasks(crew, inputTask, s, tasks);
      assert o.run.calls[|s.calls|..] == [];
    } else {
      var first := RunTask(crew, inputTask, s, tasks[0]);
      TaskManagerBudget(crew, inputTask, s, tasks[0]);
      TaskExtends(crew, inputTask, s, tasks[0]);
      ExecuteTasksStep(crew, inputTask, s, tasks);
      if first.error.None? {
        ExecuteManagerBudget(crew, inputTask, first.run, tasks[1..]);
        ExecuteExtends(crew, inputTask, first.run, tasks[1..]);
        var rest := ExecuteTasks(crew, inputTask, first.run, tasks[1..]);
        ManagerBudgetStep(s.calls, first.run.calls, rest.run.calls, crew.maxLoops, |tasks[1..]|, |tasks|);
      } else {
        ManagerBudgetFirst(s.calls, first.run.calls, crew.maxLoops, |tasks|);
      }
    }
  }

  /** A worker is called at most once per task, and exactly once per task when none raised. */
  lemma {:induction false} ExecuteAgentBudget(crew: Crew, inputTask: string, s: Run, tasks: seq<Task>)
    requires WellFormed(crew, s) && crew.maxLoops >= 1
    ensures var o := ExecuteTasks(crew, inputTask, s, tasks);
      && |s.calls| <= |o.run.calls|
      && AgentCalls(o.run.calls[|s.calls|..]) <= |tasks|
      && (o.error.None? ==> AgentCalls(o.run.calls[|s.calls|..]) == |tasks|)
    decreases |tasks|
  {
    ExecuteExtends(crew, inputTask, s, tasks);
    if tasks == [] {
      var o := ExecuteTasks(crew, inputTask, s, tasks);
      assert o.run.calls[|s.calls|..] == [];
    } else {
      var first := RunTask(crew, inputTask, s, tasks[0]);
      TaskBudget(crew, inputTask, s, tasks[0]);
      TaskExtends(crew, inputTask, s, tasks[0]);
      ExecuteTasksStep(crew, inputTask, s, tasks);
      if first.error.None? {
        ExecuteAgentBudget(crew, inputTask, first.run, tasks[1..]);
        ExecuteExtends(crew, inputTask, first.run, tasks[1..]);
        var rest := ExecuteTasks(crew, inputTask, first.run, tasks[1..]);
        AgentBudgetStep(s.calls, first.run.calls, rest.run.calls, |tasks|, rest.error.None?);
      }
    }
  }

  /**
   * The budget of a whole plan: at most `max_loops` manager calls and one worker
   * call per task, and exactly one worker call per task when no task raised.
   */
  lemma ExecuteBudget(crew: Crew, inputTask: string, s: Run, tasks: seq<Task>)
    requires WellFormed(crew, s) && crew.maxLoops >= 1
    ensures var o := ExecuteTasks(crew, inputTask, s, tasks);
      && |s.calls| <= |o.run.calls|
      && var extra := o.run.calls[|s.calls|..];
      && ManagerCalls(extra) <= crew.maxLoops * |tasks|
      && AgentCalls(extra) <= |tasks|
      && (o.error.None? ==> AgentCalls(extra) == |tasks|)
  {
    ExecuteManagerBudget(crew, inputTask, s, tasks);
    ExecuteAgentBudget(crew, inputTask, s, tasks);
  }

  /** Over a whole plan, every call depends on the one before it, and `_run_depends` ends on the last. */
  lemma {:induction false} ExecuteChain(crew: Crew, inputTask: string, s: Run, tasks: seq<Task>)
    requires WellFormed(crew, s) && crew.maxLoops >= 1
    ensures var o := ExecuteTasks(crew, inputTask, s, tasks);
      && |s.calls| <= |o.run.calls|
      && Chained(o.run.calls[|s.calls|..], s.runDepends)
      && o.run.runDepends == Tip(o.run.calls[|s.calls|..], s.runDepends)
    decreases |tasks|
  {
    ExecuteExtends(crew, inputTask, s, tasks);
    var o := ExecuteTasks(crew, inputTask, s, tasks);
    if tasks == [] {
      assert o.run.calls[|s.calls|..] == [];
    } else {
      var first := RunTask(crew, inputTask, s, tasks[0]);
      TaskChain(crew, inputTask, s, tasks[0]);
      ExecuteTasksStep(crew, inputTask, s, tasks);
      if first.error.None? {
        assert o == ExecuteTasks(crew, inputTask, first.run, tasks[1..]);
        ExecuteChain(crew, inputTask, first.run, tasks[1..]);
        ExecuteExtends(crew, inputTask, first.run, tasks[1..]);
        TaskExtends(crew, inputTask, s, tasks[0]);
        ExtendsTrans(s.calls, first.run.calls, o.run.calls);
        ChainedAppend(first.run.calls[|s.calls|..], o.run.calls[|first.run.calls|..], s.runDepends);
      }
    }
  }

  /** Running `t1 + t2` runs `t1`, then `t2` unless a task of `t1` raised. */
  lemma {:induction false} ExecuteTasksAppend(crew: Crew, inputTask: string, s: Run, t1: seq<Task>, t2: seq<Task>)
    requires WellFormed(crew, s) && crew.maxLoops >= 1
    ensures var o := ExecuteTasks(crew, inputTask, s, t1);
      ExecuteTasks(crew, inputTask, s, t1 + t2)
      == if o.error.Some? then o else ExecuteTasks(crew, inputTask, o.run, t2)
    decreases |t1|
  {
    if t1 == [] {
      assert t1 + t2 == t2;
    } else {
      assert (t1 + t2)[0] == t1[0] && (t1 + t2)[1..] == t1[1..] + t2;
      ExecuteTasksStep(crew, inputTask, s, t1 + t2);
      ExecuteTasksStep(crew, inputTask, s, t1);
      var first := RunTask(crew, inputTask, s, t1[0]);
      if first.error.None? {
        ExecuteTasksAppend(crew, inputTask, first.run, t1[1..], t2);
      }
    }
  }

  /**
   * Fail-fast: task `i` raised after the tasks before it all succeeded, the
   * outcome is that of task `i` (no later task ran), and the exception names it.
   */
  ghost predicate StopsAt(crew: Crew, inputTask: string, s: Run, tasks: seq<Task>, i: nat)
    requires WellFormed(crew, s) && crew.maxLoops >= 1
  {
    && i < |tasks|
    && var before := ExecuteTasks(crew, inputTask, s, tasks[..i]);
    && before.error.None?
    && ExecuteTasks(crew, inputTask, s, tasks) == RunTask(crew, inputTask, before.run, tasks[i])
    && ExecuteTasks(crew, inputTask, s, tasks).error.Some?
    && var e := ExecuteTasks(crew, inputTask, s, tasks).error.value;
    && (e.AssignmentFailed? || e.WorkerFailed?) && e.taskId == tasks[i].id
  }

  /** A run that raised stopped at one task. */
  lemma {:induction false} ExecuteStops(crew: Crew, inputTask: string, s: Run, tasks: seq<Task>) returns (i: nat)
    requires WellFormed(crew, s) && crew.maxLoops >= 1
    requires ExecuteTasks(crew, inputTask, s, tasks).error.Some?
    ensures StopsAt(crew, inputTask, s, tasks, i)
    decreases |tasks|
  {
    if RunTask(crew, inputTask, s, tasks[0]).error.Some? {
      i := 0;
      StopsFirst(crew, inputTask, s, tasks);
    } else {
      var first := RunTask(crew, inputTask, s, tasks[0]);
      ExecuteTasksStep(crew, inputTask, s, tasks);
      var j := ExecuteStops(crew, inputTask, first.run, tasks[1..]);
      i := j + 1;
      StopsLater(crew, inputTask, s, tasks, j);
    }
  }

  lemma StopsFirst(crew: Crew, inputTask: string, s: Run, tasks: seq<Task>)
    requires WellFormed(crew, s) && crew.maxLoops >= 1
    requires tasks != [] && RunTask(crew, inputTask, s, tasks[0]).error.Some?
    ensures StopsAt(crew, inputTask, s, tasks, 0)
  {
    ExecuteTasksStep(crew, inputTask, s, tasks);
    assert tasks[..0] == [];
    var _, _ := TaskResults(crew, inputTask, s, tasks[0]);
  }

  lemma StopsLater(crew: Crew, inputTask: string, s: Run, tasks: seq<Task>, j: nat)
    requires WellFormed(crew, s) && crew.maxLoops >= 1
    requires tasks != [] && RunTask(crew, inputTask, s, tasks[0]).error.None?
    requires StopsAt(crew, inputTask, RunTask(crew, inputTask, s, tasks[0]).run, tasks[1..], j)
    ensures StopsAt(crew, inputTask, s, tasks, j + 1)
  {
    var i := j + 1;
    ExecuteTasksStep(crew, inputTask, s, tasks);
    assert tasks[..i][0] == tasks[0] && tasks[..i][1..] == tasks[1..][..j];
    ExecuteTasksStep(crew, inputTask, s, tasks[..i]);
    assert tasks[1..][j] == tasks[i];
  }


  /** The ids of the tasks, in plan order. */
  function Ids(tasks: seq<Task>): (r: seq<int>)
    ensures |r| == |tasks| && forall i :: 0 <= i < |tasks| ==> r[i] == tasks[i].id
  {
    seq(|tasks|, i requires 0 <= i < |tasks| => tasks[i].id)
  }

  /** A run without exception has recorded every task of the plan, and kept every earlier key. */
  lemma {:induction false} ExecuteRecords(crew: Crew, inputTask: string, s: Run, tasks: seq<Task>)
    requires WellFormed(crew, s) && crew.maxLoops >= 1
    ensures var o := ExecuteTasks(crew, inputTask, s, tasks);
      o.error.None? ==>
        && (forall k :: k in s.results.entries ==> k in o.run.results.entries)
        && (forall t :: t in tasks ==> t.id in o.run.results.entries)
    decreases |tasks|
  {
    if tasks != [] {
      var t := tasks[0];
      var first := RunTask(crew, inputTask, s, t);
      var _, _ := TaskResults(crew, inputTask, s, t);
      ExecuteTasksStep(crew, inputTask, s, tasks);
      if first.error.None? {
        var o := ExecuteTasks(crew, inputTask, s, tasks);
        assert o == ExecuteTasks(crew, inputTask, first.run, tasks[1..]);
        ExecuteRecords(crew, inputTask, first.run, tasks[1..]);
        assert t.id in first.run.results.entries;
        if o.error.None? {
          forall u | u in tasks
            ensures u.id in o.run.results.entries
          {
            if u != t {
              assert u in tasks[1..];
            }
          }
        }
      }
    }
  }

  /** Fresh distinct ids stay fresh for the rest of the plan once the first task is recorded. */
  lemma FreshRest(tasks: seq<Task>, before: OD.Dict<Entry>, after: OD.Dict<Entry>)
    requires tasks != [] && OD.Distinct(Ids(tasks))
    requires forall i :: 0 <= i < |tasks| ==> tasks[i].id !in before.entries
    requires after.entries.Keys == before.entries.Keys + {tasks[0].id}
    ensures OD.Distinct(Ids(tasks[1..]))
    ensures forall i :: 0 <= i < |tasks| - 1 ==> tasks[1..][i].id !in after.entries
    ensures Ids(tasks) == [tasks[0].id] + Ids(tasks[1..])
  {
    assert Ids(tasks[1..]) == Ids(tasks)[1..];
    forall i | 0 <= i < |tasks| - 1
      ensures tasks[1..][i].id !in after.entries
    {
      assert Ids(tasks)[i + 1] != Ids(tasks)[0];
    }
  }

  lemma PutFresh(d: OD.Dict<Entry>, k: int, e: Entry)
    requires OD.Valid(d) && k !in d.entries
    ensures var r := OD.Put(d, k, e);
      && r.keys == d.keys + [k]
      && r.entries.Keys == d.entries.Keys + {k}
      && forall k' :: k' in d.entries ==> r.entries[k'] == d.entries[k']
  {
  }

  lemma KeysStep(k0: seq<int>, k1: seq<int>, k2: seq<int>, id: int, rest: seq<int>, ids: seq<int>)
    requires k1 == k0 + [id] && k2 == k1 + rest && ids == [id] + rest
    ensures k2 == k0 + ids
  {
  }

  /** With distinct ids not yet recorded, a run without exception appends one key per task, in plan order. */
  lemma {:induction false} ExecuteKeys(crew: Crew, inputTask: string, s: Run, tasks: seq<Task>)
    requires WellFormed(crew, s) && crew.maxLoops >= 1
    requires OD.Distinct(Ids(tasks)) && forall i :: 0 <= i < |tasks| ==> tasks[i].id !in s.results.entries
    ensures var o := ExecuteTasks(crew, inputTask, s, tasks);
      o.error.None? ==> o.run.results.keys == s.results.keys + Ids(tasks)
    decreases |tasks|
  {
    if tasks != [] {
      var t := tasks[0];
      var first := RunTask(crew, inputTask, s, t);
      var _, c := TaskResults(crew, inputTask, s, t);
      ExecuteTasksStep(crew, inputTask, s, tasks);
      if first.error.None? {
        PutFresh(s.results, t.id, Entry(t.name, c));
        FreshRest(tasks, s.results, first.run.results);
        ExecuteKeys(crew, inputTask, first.run, tasks[1..]);
        var o := ExecuteTasks(crew, inputTask, first.run, tasks[1..]);
        if o.error.None? {
          KeysStep(s.results.keys, first.run.results.keys, o.run.results.keys, t.id, Ids(tasks[1..]), Ids(tasks));
        }
      }
    }
  }

  /** With ids not yet recorded, a run without exception leaves the earlier entries as they were. */
  lemma {:induction false} ExecuteKeeps(crew: Crew, inputTask: string, s: Run, tasks: seq<Task>)
    requires WellFormed(crew, s) && crew.maxLoops >= 1
    requires OD.Distinct(Ids(tasks)) && forall i :: 0 <= i < |tasks| ==> tasks[i].id !in s.results.entries
    ensures var o := ExecuteTasks(crew, inputTask, s, tasks);
      o.error.None? ==> forall k :: k in s.results.entries ==> k in o.run.results.entries && o.run.results.entries[k] == s.results.entries[k]
    decreases |tasks|
  {
    if tasks != [] {
      var t := tasks[0];
      var first := RunTask(crew, inputTask, s, t);
      var _, c := TaskResults(crew, inputTask, s, t);
      ExecuteTasksStep(crew, inputTask, s, tasks);
      if first.error.None? {
        PutFresh(s.results, t.id, Entry(t.name, c));
        FreshRest(tasks, s.results, first.run.results);
        ExecuteKeeps(crew, inputTask, first.run, tasks[1..]);
      }
    }
  }

  /** With distinct ids not yet recorded, a run without exception files each task's result under its own name. */
  lemma {:induction false} ExecuteNames(crew: Crew, inputTask: string, s: Run, tasks: seq<Task>)
    requires WellFormed(crew, s) && crew.maxLoops >= 1
    requires OD.Distinct(Ids(tasks)) && forall i :: 0 <= i < |tasks| ==> tasks[i].id !in s.results.entries
    ensures var o := ExecuteTasks(crew, inputTask, s, tasks);
      o.error.None? ==> forall i :: 0 <= i < |tasks| ==>
        tasks[i].id in o.run.results.entries && o.run.results.entries[tasks[i].id].name == tasks[i].name
    decreases |tasks|
  {
    if tasks != [] {
      var t := tasks[0];
      var first := RunTask(crew, inputTask, s, t);
      var _, c := TaskResults(crew, inputTask, s, t);
      ExecuteTasksStep(crew, inputTask, s, tasks);
      if first.error.None? {
        var rest := tasks[1..];
        FreshRest(tasks, s.results, first.run.results);
        PutFresh(s.results, t.id, Entry(t.name, c));
        ExecuteNames(crew, inputTask, first.run, rest);
        ExecuteKeeps(crew, inputTask, first.run, rest);
        var o := ExecuteTasks(crew, inputTask, s, tasks);
        assert o == ExecuteTasks(crew, inputTask, first.run, rest);
        if o.error.None? {
          forall i | 0 <= i < |tasks|
            ensures tasks[i].id in o.run.results.entries && o.run.results.entries[tasks[i].id].name == tasks[i].name
          {
            if i == 0 {
              assert first.run.results.entries[t.id] == Entry(t.name, c);
            } else {
              assert tasks[i] == rest[i - 1];
            }
          }
        }
      }
    }
  }

  // ---------------------------------------------------------------------
  // The dependency context: get_dependency_outputs
  // ---------------------------------------------------------------------

  /** The listed dependencies that have a recorded result, in the order they are listed. */
  function PresentIds(results: OD.Dict<Entry>, deps: seq<int>): (r: seq<int>)
    ensures forall d :: d in r <==> d in deps && d in results.entries
    ensures forall i :: 0 <= i < |r| ==> r[i] in results.entries
    decreases |deps|
  {
    if deps == [] then []
    else
      var d := deps[|deps| - 1];
      assert deps == deps[..|deps| - 1] + [d];
      PresentIds(results, deps[..|deps| - 1]) + (if d in results.entries then [d] else [])
  }

  /** The `**Task:** ... **Result:** ...` block of each given recorded id. */
  function BlocksOf(results: OD.Dict<Entry>, ids: seq<int>): (r: seq<string>)
    requires forall i :: 0 <= i < |ids| ==> ids[i] in results.entries
    ensures |r| == |ids| && forall i :: 0 <= i < |ids| ==> r[i] == results.entries[ids[i]].Block()
  {
    seq(|ids|, i requires 0 <= i < |ids| => results.entries[ids[i]].Block())
  }

  /** The loop's text after the header is the blocks of the present dependencies joined by blank lines, plus one. */
  lemma {:induction false} DependencyBlocksJoin(results: OD.Dict<Entry>, deps: seq<int>)
    ensures var ids := PresentIds(results, deps);
      DependencyBlocks(results, deps)
      == if ids == [] then "" else Join("\n\n", BlocksOf(results, ids)) + "\n\n"
    decreases |deps|
  {
    if deps != [] {
      var init, d := deps[..|deps| - 1], deps[|deps| - 1];
      DependencyBlocksJoin(results, init);
      var ids0 := PresentIds(results, init);
      if d in results.entries {
        assert PresentIds(results, deps) == ids0 + [d];
        JoinSnocBlock(results, ids0, d);
      } else {
        assert PresentIds(results, deps) == ids0 + [] == ids0;
        assert DependencyBlocks(results, deps) == DependencyBlocks(results, init) + "" == DependencyBlocks(results, init);
      }
    }
  }

  lemma JoinSnocBlock(results: OD.Dict<Entry>, ids0: seq<int>, d: int)
    requires (forall i :: 0 <= i < |ids0| ==> ids0[i] in results.entries) && d in results.entries
    ensures var ids := ids0 + [d];
      Join("\n\n", BlocksOf(results, ids)) + "\n\n"
      == (if ids0 == [] then "" else Join("\n\n", BlocksOf(results, ids0)) + "\n\n") + DependencyBlock(results.entries[d])
  {
    var ids := ids0 + [d];
    var blocks := BlocksOf(results, ids);
    assert blocks[..|ids0|] == BlocksOf(results, ids0);
    assert blocks[|ids0|] == results.entries[d].Block();
  }

  lemma {:induction false} NoPresentIds(results: OD.Dict<Entry>, deps: seq<int>)
    requires forall d :: d in deps ==> d !in results.entries
    ensures PresentIds(results, deps) == []
    decreases |deps|
  {
    if deps != [] {
      var init := deps[..|deps| - 1];
      assert deps[|deps| - 1] in deps;
      forall d | d in init
        ensures d !in results.entries
      {
        assert d in deps;
      }
      NoPresentIds(results, init);
    }
  }

  /** `get_dependency_outputs` when none of the listed dependencies has a result: the header alone, stripped. */
  lemma DependencyContextHeaderOnly(results: OD.Dict<Entry>, deps: seq<int>)
    requires deps != [] && forall d :: d in deps ==> d !in results.entries
    ensures DependencyContext(results, deps) == ContextLine
  {
    DependencyBlocksJoin(results, deps);
    NoPresentIds(results, deps);
    assert DependencyBlocks(results, deps) == "";
    assert "**\n" == "**" + "\n";
    assert ContextHeader + DependencyBlocks(results, deps) == ContextHeader == [] + ContextLine + "\n";
    StripExact([], ContextLine, "\n");
  }

  /**
   * `get_dependency_outputs` when some listed dependency has a result ending in a
   * non-space character: the header line, then the blocks of the present
   * dependencies in the order listed, separated by one blank line.
   */
  lemma DependencyContextShape(results: OD.Dict<Entry>, deps: seq<int>)
    requires var ids := PresentIds(results, deps);
      && ids != []
      && var last := results.entries[ids[|ids| - 1]].result;
      && last != [] && !IsSpace(last[|last| - 1])
    ensures DependencyContext(results, deps)
      == ContextHeader + Join("\n\n", BlocksOf(results, PresentIds(results, deps)))
  {
    DependencyBlocksJoin(results, deps);
    ContextOfIds(results, deps, PresentIds(results, deps));
  }

  /**
   * `get_dependency_outputs` for any listed dependencies: the header line, then
   * the blocks of the present dependencies in the order listed, separated by
   * one blank line, with the trailing whitespace removed; a result that ends in
   * whitespace loses it when it comes last.
   */
  lemma DependencyContextStripped(results: OD.Dict<Entry>, deps: seq<int>)
    requires deps != []
    ensures DependencyContext(results, deps)
      == RStrip(ContextHeader + Join("\n\n", BlocksOf(results, PresentIds(results, deps))))
  {
    var ids := PresentIds(results, deps);
    DependencyBlocksJoin(results, deps);
    if ids == [] {
      assert DependencyBlocks(results, deps) == "" + "";
      ContextOfJoin(results, deps, "", "");
    } else {
      ContextOfJoin(results, deps, Join("\n\n", BlocksOf(results, ids)), "\n\n");
    }
  }

  /** The context of loop text `j` followed by whitespace is the header and `j`, right-stripped. */
  lemma ContextOfJoin(results: OD.Dict<Entry>, deps: seq<int>, j: string, w: string)
    requires deps != [] && DependencyBlocks(results, deps) == j + w && AllSpace(w)
    ensures DependencyContext(results, deps) == RStrip(ContextHeader + j)
  {
    assert ContextHeader[0] == '*';
    StripOpenedSpace(ContextHeader, j, w);
  }

  /** Text that opens on a non-space and ends in whitespace strips as its start, right-stripped. */
  lemma StripOpenedSpace(h: string, j: string, w: string)
    requires |h| > 0 && !IsSpace(h[0]) && AllSpace(w)
    ensures Strip(h + (j + w)) == RStrip(h + j)
  {
    assert h + (j + w) == (h + j) + w;
    assert (h + (j + w))[0] == h[0];
    RStripDropsSpace(h + j, w);
  }

  lemma ContextOfIds(results: OD.Dict<Entry>, deps: seq<int>, ids: seq<int>)
    requires deps != [] && ids != [] && forall i :: 0 <= i < |ids| ==> ids[i] in results.entries
    requires DependencyBlocks(results, deps) == Join("\n\n", BlocksOf(results, ids)) + "\n\n"
    requires var last := results.entries[ids[|ids| - 1]].result; last != [] && !IsSpace(last[|last| - 1])
    ensures DependencyContext(results, deps) == ContextHeader + Join("\n\n", BlocksOf(results, ids))
  {
    LastBlockEnds(results, ids);
    ContextOfParts(results, deps, BlocksOf(results, ids), results.entries[ids[|ids| - 1]].result);
  }

  /** The last block ends with the last entry's result. */
  lemma LastBlockEnds(results: OD.Dict<Entry>, ids: seq<int>)
    requires ids != [] && forall i :: 0 <= i < |ids| ==> ids[i] in results.entries
    ensures var p, t := BlocksOf(results, ids)[|ids| - 1], results.entries[ids[|ids| - 1]].result;
      |t| <= |p| && p[|p| - |t|..] == t
  {
    results.entries[ids[|ids| - 1]].BlockEndsWithResult();
  }

  /** A join ends in the last character of its last part. */
  lemma JoinEndsInTail(parts: seq<string>, tail: string)
    requires |parts| > 0 && var p := parts[|parts| - 1]; |tail| <= |p| && p[|p| - |tail|..] == tail
    requires tail != []
    ensures var j := Join("\n\n", parts); |j| > 0 && j[|j| - 1] == tail[|tail| - 1]
  {
    var j, p := Join("\n\n", parts), parts[|parts| - 1];
    JoinEndsWithLast("\n\n", parts);
    assert p[|p| - 1] == p[|p| - |tail|..][|tail| - 1];
    assert j[|j| - 1] == j[|j| - |p|..][|p| - 1];
  }

  lemma ContextOfParts(results: OD.Dict<Entry>, deps: seq<int>, parts: seq<string>, tail: string)
    requires deps != [] && DependencyBlocks(results, deps) == Join("\n\n", parts) + "\n\n"
    requires |parts| > 0 && var p := parts[|parts| - 1]; |tail| <= |p| && p[|p| - |tail|..] == tail
    requires tail != [] && !IsSpace(tail[|tail| - 1])
    ensures DependencyContext(results, deps) == ContextHeader + Join("\n\n", parts)
  {
    JoinEndsInTail(parts, tail);
    ContextOfBlocks(results, deps, Join("\n\n", parts));
  }

  lemma ContextOfBlocks(results: OD.Dict<Entry>, deps: seq<int>, j: string)
    requires deps != [] && DependencyBlocks(results, deps) == j + "\n\n"
    requires |j| > 0 && !IsSpace(j[|j| - 1])
    ensures DependencyContext(results, deps) == ContextHeader + j
  {
    assert ContextHeader[0] == '*';
    StripTrailingBlankLine(ContextHeader, j);
  }

  /** Stripping a text that opens on a non-space and ends in one blank line drops just that line. */
  lemma StripTrailingBlankLine(h: string, j: string)
    requires |h| > 0 && !IsSpace(h[0]) && |j| > 0 && !IsSpace(j[|j| - 1])
    ensures Strip(h + (j + "\n\n")) == h + j
  {
    var m := h + j;
    assert m[0] == h[0] && m[|m| - 1] == j[|j| - 1];
    assert h + (j + "\n\n") == [] + m + "\n\n";
    StripExact([], m, "\n\n");
  }

  lemma DistinctPrefix(xs: seq<int>, i: nat)
    requires OD.Distinct(xs) && i <= |xs|
    ensures OD.Distinct(xs[..i])
  {
    forall a, b | 0 <= a < b < i
      ensures xs[..i][a] != xs[..i][b]
    {
      assert xs[..i][a] == xs[a] && xs[..i][b] == xs[b];
    }
  }

  /**
   * What task `i` of a plan sees: when the tasks before it all succeeded, its
   * first call asks the manager with the prompt built from the context of the
   * results recorded so far, and a dependency contributes to that context exactly
   * when it was recorded before the run or is one of the earlier tasks.
   */
  lemma ContextOfTask(crew: Crew, inputTask: string, s: Run, tasks: seq<Task>, i: nat)
    requires WellFormed(crew, s) && crew.maxLoops >= 1
    requires OD.Distinct(Ids(tasks)) && forall k :: 0 <= k < |tasks| ==> tasks[k].id !in s.results.entries
    requires i < |tasks| && ExecuteTasks(crew, inputTask, s, tasks[..i]).error.None?
    ensures var before := ExecuteTasks(crew, inputTask, s, tasks[..i]).run;
      var all := ExecuteTasks(crew, inputTask, s, tasks).run;
      var deps := tasks[i].dependencies;
      && |before.calls| < |all.calls|
      && all.calls[|before.calls|]
         == ManagerCall(AssignRequest(inputTask, TaskPrompt(tasks[i], DependencyContext(before.results, deps)),
                                      crew.roster),
                        before.runDepends)
      && forall d :: d in PresentIds(before.results, deps)
                     <==> d in deps && (d in s.results.entries || d in Ids(tasks[..i]))
  {
    var before := ExecuteTasks(crew, inputTask, s, tasks[..i]).run;
    RunOfTaskKept(crew, inputTask, s, tasks, i);
    TaskFirstCall(crew, inputTask, before, tasks[i]);
    CallKept(RunTask(crew, inputTask, before, tasks[i]).run.calls, ExecuteTasks(crew, inputTask, s, tasks).run.calls,
             |before.calls|);
    DependenciesOfTask(crew, inputTask, s, tasks, i);
  }

  /** When the tasks before task `i` succeeded, the run carries on from task `i`'s own run. */
  lemma RunOfTaskKept(crew: Crew, inputTask: string, s: Run, tasks: seq<Task>, i: nat)
    requires WellFormed(crew, s) && crew.maxLoops >= 1
    requires i < |tasks| && ExecuteTasks(crew, inputTask, s, tasks[..i]).error.None?
    ensures var before := ExecuteTasks(crew, inputTask, s, tasks[..i]).run;
      Extends(RunTask(crew, inputTask, before, tasks[i]).run.calls, ExecuteTasks(crew, inputTask, s, tasks).run.calls)
  {
    var before := ExecuteTasks(crew, inputTask, s, tasks[..i]).run;
    ExecuteSplitAt(crew, inputTask, s, tasks, i);
    ExecuteFromFirst(crew, inputTask, before, tasks[i..]);
    assert tasks[i..][0] == tasks[i];
  }

  /** A run is its first `i` tasks, then the rest unless one of those raised. */
  lemma ExecuteSplitAt(crew: Crew, inputTask: string, s: Run, tasks: seq<Task>, i: nat)
    requires WellFormed(crew, s) && crew.maxLoops >= 1 && i <= |tasks|
    ensures var o := ExecuteTasks(crew, inputTask, s, tasks[..i]);
      ExecuteTasks(crew, inputTask, s, tasks) == if o.error.Some? then o else ExecuteTasks(crew, inputTask, o.run, tasks[i..])
  {
    assert tasks[..i] + tasks[i..] == tasks;
    ExecuteTasksAppend(crew, inputTask, s, tasks[..i], tasks[i..]);
  }

  /** A run carries on from its first task's run. */
  lemma ExecuteFromFirst(crew: Crew, inputTask: string, s: Run, tasks: seq<Task>)
    requires WellFormed(crew, s) && crew.maxLoops >= 1 && tasks != []
    ensures Extends(RunTask(crew, inputTask, s, tasks[0]).run.calls, ExecuteTasks(crew, inputTask, s, tasks).run.calls)
  {
    ExecuteTasksStep(crew, inputTask, s, tasks);
    var first := RunTask(crew, inputTask, s, tasks[0]);
    if first.error.None? {
      ExecuteExtends(crew, inputTask, first.run, tasks[1..]);
    }
  }

  lemma CallKept(before: seq<Call>, after: seq<Call>, n: nat)
    requires Extends(before, after) && n < |before|
    ensures n < |after| && after[n] == before[n]
  {
    assert after[n] == after[..|before|][n];
  }

  lemma DependenciesOfTask(crew: Crew, inputTask: string, s: Run, tasks: seq<Task>, i: nat)
    requires WellFormed(crew, s) && crew.maxLoops >= 1
    requires OD.Distinct(Ids(tasks)) && forall k :: 0 <= k < |tasks| ==> tasks[k].id !in s.results.entries
    requires i < |tasks| && ExecuteTasks(crew, inputTask, s, tasks[..i]).error.None?
    ensures var before := ExecuteTasks(crew, inputTask, s, tasks[..i]).run;
      forall d :: d in PresentIds(before.results, tasks[i].dependencies)
                  <==> d in tasks[i].dependencies && (d in s.results.entries || d in Ids(tasks[..i]))
  {
    DistinctPrefix(Ids(tasks), i);
    assert Ids(tasks[..i]) == Ids(tasks)[..i];
    ExecuteKeys(crew, inputTask, s, tasks[..i]);
  }

  // ---------------------------------------------------------------------
  // The whole run: run_flow
  // ---------------------------------------------------------------------

  /**
   * A plan that cannot be had (a failed reply, no result, no tags, or a plan
   * that does not validate) ends the run right after the one planning call,
   * with nothing recorded.
   */
  lemma FlowPlanFails(crew: Crew, validate: Plan.Validator, settings: FinalAnswer.Settings, inputTask: string,
                      history: seq<string>, summarize: FinalAnswer.Summarizer, s: Run)
    requires WellFormed(crew, s) && crew.maxLoops >= 1
    requires PlanOutcome(ManagerAnswer(s), validate).Failure?
    ensures var f := Flow(crew, validate, settings, inputTask, history, summarize, s);
      && f.answer == Failure(PlanOutcome(ManagerAnswer(s), validate).error)
      && (|| f.answer.error.PlanRequestFailed? || f.answer.error.PlanResultMissing?
          || f.answer.error.OutputTagsMissing? || f.answer.error.PlanInvalid?)
      && f.run.results == s.results
      && f.run.calls == s.calls + [ManagerCall(PlanCall(crew, inputTask), s.runDepends)]
      && f.run.runDepends == [ManagerNode]
  {
  }

  /**
   * The exception that ends a run comes from planning, from the task the run
   * stopped at, or from a summary without `<final_answer>` tags.
   */
  lemma FlowErrors(crew: Crew, validate: Plan.Validator, settings: FinalAnswer.Settings, inputTask: string,
                   history: seq<string>, summarize: FinalAnswer.Summarizer, s: Run)
    requires WellFormed(crew, s) && crew.maxLoops >= 1
    ensures var f := Flow(crew, validate, settings, inputTask, history, summarize, s);
      var plan := PlanOutcome(ManagerAnswer(s), validate);
      f.answer.Failure? ==>
        || (plan.Failure? && f.answer.error == plan.error)
        || (&& plan.Success?
            && (f.answer.error.AssignmentFailed? || f.answer.error.WorkerFailed?)
            && exists i :: 0 <= i < |plan.value| && plan.value[i].id == f.answer.error.taskId)
        || (plan.Success? && f.answer.error == FinalAnswerTagsMissing && FinalAnswer.Summarizes(settings, f.run.results))
  {
    var plan := PlanOutcome(ManagerAnswer(s), validate);
    if plan.Success? {
      var s1 := AfterManagerCall(s, PlanCall(crew, inputTask));
      var o := ExecuteTasks(crew, inputTask, s1, plan.value);
      if o.error.Some? {
        var i := ExecuteStops(crew, inputTask, s1, plan.value);
        assert plan.value[i].id == o.error.value.taskId;
      }
    }
  }

  /** With fresh distinct task ids, a run that answers has recorded every planned task, in plan order, under its name. */
  lemma FlowRecords(crew: Crew, validate: Plan.Validator, settings: FinalAnswer.Settings, inputTask: string,
                    history: seq<string>, summarize: FinalAnswer.Summarizer, s: Run, tasks: seq<Task>)
    requires WellFormed(crew, s) && crew.maxLoops >= 1
    requires PlanOutcome(ManagerAnswer(s), validate) == Success(tasks)
    requires OD.Distinct(Ids(tasks)) && forall i :: 0 <= i < |tasks| ==> tasks[i].id !in s.results.entries
    ensures var f := Flow(crew, validate, settings, inputTask, history, summarize, s);
      f.answer.Success? ==>
        && f.run.results.keys == s.results.keys + Ids(tasks)
        && forall i :: 0 <= i < |tasks| ==> f.run.results.entries[tasks[i].id].name == tasks[i].name
  {
    var s1 := AfterManagerCall(s, PlanCall(crew, inputTask));
    ExecuteKeys(crew, inputTask, s1, tasks);
    ExecuteNames(crew, inputTask, s1, tasks);
  }

  /**
   * The planning call comes first and is given the `run_depends` the run
   * started with; every later call is given the node of the call before it,
   * and `_run_depends` ends on the last call.
   */
  lemma FlowChain(crew: Crew, validate: Plan.Validator, settings: FinalAnswer.Settings, inputTask: string,
                  history: seq<string>, summarize: FinalAnswer.Summarizer, s: Run)
    requires WellFormed(crew, s) && crew.maxLoops >= 1
    ensures var f := Flow(crew, validate, settings, inputTask, history, summarize, s);
      && |s.calls| < |f.run.calls|
      && f.run.calls[|s.calls|] == ManagerCall(PlanCall(crew, inputTask), s.runDepends)
      && Chained(f.run.calls[|s.calls|..], s.runDepends)
      && f.run.runDepends == Tip(f.run.calls[|s.calls|..], s.runDepends)
  {
    var plan := PlanOutcome(ManagerAnswer(s), validate);
    var m := ManagerCall(PlanCall(crew, inputTask), s.runDepends);
    var s1 := AfterManagerCall(s, PlanCall(crew, inputTask));
    assert Chained([m], s.runDepends) by {
      assert [m][1..] == [];
    }
    if plan.Failure? {
      assert s1.calls[|s.calls|..] == [m];
    } else {
      var o := ExecuteTasks(crew, inputTask, s1, plan.value);
      ExecuteChain(crew, inputTask, s1, plan.value);
      ExecuteExtends(crew, inputTask, s1, plan.value);
      AfterPlanCall(s.calls, m, o.run.calls);
      ChainedAppend([m], o.run.calls[|s.calls| + 1..], s.runDepends);
    }
  }

  /** A run calls the manager at most once for the plan and `max_loops` times per task, and each worker at most once per task. */
  lemma FlowBudget(crew: Crew, validate: Plan.Validator, settings: FinalAnswer.Settings, inputTask: string,
                   history: seq<string>, summarize: FinalAnswer.Summarizer, s: Run, tasks: seq<Task>)
    requires WellFormed(crew, s) && crew.maxLoops >= 1
    requires PlanOutcome(ManagerAnswer(s), validate) == Success(tasks)
    ensures var f := Flow(crew, validate, settings, inputTask, history, summarize, s);
      && |s.calls| <= |f.run.calls|
      && var extra := f.run.calls[|s.calls|..];
      && ManagerCalls(extra) <= 1 + crew.maxLoops * |tasks|
      && AgentCalls(extra) <= |tasks|
      && (f.answer.Success? ==> AgentCalls(extra) == |tasks|)
  {
    var m := ManagerCall(PlanCall(crew, inputTask), s.runDepends);
    var s1 := AfterManagerCall(s, PlanCall(crew, inputTask));
    var o := ExecuteTasks(crew, inputTask, s1, tasks);
    ExecuteBudget(crew, inputTask, s1, tasks);
    ExecuteExtends(crew, inputTask, s1, tasks);
    PlanCallCounts(s.calls, m, o.run.calls);
  }

  /** The calls after `before` are the planning call `m`, then those of the tasks. */
  lemma AfterPlanCall(before: seq<Call>, m: Call, after: seq<Call>)
    requires Extends(before + [m], after)
    ensures |before| < |after| && after[|before|..] == [m] + after[|before| + 1..]
  {
    assert after[|before|] == (before + [m])[|before|];
  }

  /** The planning call counts once against the manager and not at all against the workers. */
  lemma PlanCallCounts(before: seq<Call>, m: Call, after: seq<Call>)
    requires m.ManagerCall? && Extends(before + [m], after)
    ensures |before| < |after|
    ensures ManagerCalls(after[|before|..]) == 1 + ManagerCalls(after[|before| + 1..])
    ensures AgentCalls(after[|before|..]) == AgentCalls(after[|before| + 1..])
  {
    AfterPlanCall(before, m, after);
    CountAppend([m], after[|before| + 1..]);
    assert [m][1..] == [];
  }
}
