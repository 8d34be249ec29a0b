/**
 * A complete run of `run_tasks` with two tasks and two workers, the second
 * task depending on the first: the manager names worker 0, then worker 1, and
 * both workers succeed.
 */
module Scenario {

  import opened Wrappers
  import opened Text
  import opened Types
  import OD = OrderedDict
  import Roster
  import opened Engine
  import EngineLemmas

  /** A successful manager reply whose `"result"` is the bare index `i`. */
  function Naming(i: nat, rendered: string): ManagerReply {
    ManagerReply(Succeeded, Some(NatToString(i)), rendered)
  }

  /** A reply naming a worker of the roster by its bare index dispatches the task to that worker. */
  lemma NamingDispatches(crew: Crew, i: nat, rendered: string)
    requires i < |crew.agentNames|
    ensures Dispatches(crew, Naming(i, rendered)) && ChosenIndex(Naming(i, rendered)) == i
  {
    Roster.AgentIndexOfNumeral([], i, []);
    assert [] + NatToString(i) + [] == NatToString(i);
  }

  /**
   * A task whose first assignment names a worker that succeeds: one manager
   * call and one worker call, both sent the task's prompt, and the worker's
   * content recorded under the task's id.
   */
  lemma FirstTryTask(crew: Crew, inputTask: string, s: Run, t: Task, i: nat, rendered: string, content: string)
    requires WellFormed(crew, s) && crew.maxLoops >= 1 && i < |crew.agentNames|
    requires s.managerScript != [] && s.managerScript[0] == Naming(i, rendered)
    requires s.agentScripts[i] != [] && s.agentScripts[i][0] == AgentReply(Succeeded, content)
    ensures var p := TaskPrompt(t, DependencyContext(s.results, t.dependencies));
      RunTask(crew, inputTask, s, t)
      == Outcome(Run(OD.Put(s.results, t.id, Entry(t.name, content)), [AgentNode(i)],
                     s.managerScript[1..], s.agentScripts[i := s.agentScripts[i][1..]],
                     s.calls + [ManagerCall(AssignRequest(inputTask, p, crew.roster), s.runDepends)]
                       + [AgentCall(i, p, [ManagerNode])]),
                 None)
  {
    NamingDispatches(crew, i, rendered);
  }

  /** The context of a task depending only on a task recorded with a result that ends in a non-space character. */
  lemma SingleDependencyContext(results: OD.Dict<Entry>, d: int, e: Entry)
    requires d in results.entries && results.entries[d] == e
    requires e.result != [] && !IsSpace(e.result[|e.result| - 1])
    ensures DependencyContext(results, [d]) == ContextHeader + e.Block()
  {
    assert [d][..0] == [];
    assert DependencyBlocks(results, [d]) == e.Block() + "\n\n";
    e.BlockEndsWithResult();
    var m := ContextHeader + e.Block();
    assert m[0] == '*' && m[|m| - 1] == e.result[|e.result| - 1];
    StripExact([], m, "\n\n");
    assert [] + m + "\n\n" == ContextHeader + DependencyBlocks(results, [d]);
  }

  /**
   * A dependency whose result ends in a newline, as worker replies often do,
   * contributes its block without that newline.
   */
  lemma TrailingNewlineContext(results: OD.Dict<Entry>, d: int, name: string, r: string)
    requires d in results.entries && results.entries[d] == Entry(name, r + "\n")
    requires r != [] && !IsSpace(r[|r| - 1])
    ensures DependencyContext(results, [d]) == ContextHeader + Entry(name, r).Block()
  {
    var b := Entry(name, r).Block();
    assert [d][..0] == [];
    assert Entry(name, r + "\n").Block() == b + "\n";
    assert DependencyBlocks(results, [d]) == b + "\n\n\n";
    EngineLemmas.ContextOfJoin(results, [d], b, "\n\n\n");
    var m := ContextHeader + b;
    Entry(name, r).BlockEndsWithResult();
    assert m[|m| - 1] == r[|r| - 1];
    assert RStrip(m) == m;
  }

  /**
   * The two-task run: both tasks are recorded, in plan order, under their names
   * with their workers' contents; four calls are made, alternating manager and
   * worker; and the second worker is sent a prompt whose context is the block
   * of the first task's name and result.
   */
  lemma TwoTaskRun(crew: Crew, inputTask: string, s: Run, t1: Task, t2: Task,
                   r1: string, r2: string, x: string, y: string)
    requires |crew.agentNames| == 2 && crew.maxLoops >= 1
    requires s.results == OD.Empty()
    requires s.managerScript == [Naming(0, r1), Naming(1, r2)]
    requires s.agentScripts == [[AgentReply(Succeeded, x)], [AgentReply(Succeeded, y)]]
    requires t1.id != t2.id && t1.dependencies == [] && t2.dependencies == [t1.id]
    requires x != [] && !IsSpace(x[|x| - 1])
    ensures var o := ExecuteTasks(crew, inputTask, s, [t1, t2]);
      && o.error.None?
      && o.run.results.keys == [t1.id, t2.id]
      && o.run.results.entries[t1.id] == Entry(t1.name, x)
      && o.run.results.entries[t2.id] == Entry(t2.name, y)
      && o.run.runDepends == [AgentNode(1)]
      && var p1 := TaskPrompt(t1, "");
      && var p2 := TaskPrompt(t2, ContextHeader + Entry(t1.name, x).Block());
      && o.run.calls == s.calls + [ManagerCall(AssignRequest(inputTask, p1, crew.roster), s.runDepends)]
                                + [AgentCall(0, p1, [ManagerNode])]
                                + [ManagerCall(AssignRequest(inputTask, p2, crew.roster), [AgentNode(0)])]
                                + [AgentCall(1, p2, [ManagerNode])]
  {
    ExecuteTwo(crew, inputTask, s, t1, t2);
    FirstTryTask(crew, inputTask, s, t1, 0, r1, x);
    var s1 := RunTask(crew, inputTask, s, t1).run;
    assert s1.managerScript[0] == Naming(1, r2);
    assert s1.agentScripts[1] == [AgentReply(Succeeded, y)];
    SingleDependencyContext(s1.results, t1.id, Entry(t1.name, x));
    FirstTryTask(crew, inputTask, s1, t2, 1, r2, y);
  }

  /** Two tasks: the first, then the second unless the first raised. */
  lemma ExecuteTwo(crew: Crew, inputTask: string, s: Run, t1: Task, t2: Task)
    requires WellFormed(crew, s) && crew.maxLoops >= 1
    ensures var first := RunTask(crew, inputTask, s, t1);
      ExecuteTasks(crew, inputTask, s, [t1, t2])
      == if first.error.Some? then first else RunTask(crew, inputTask, first.run, t2)
  {
    var first := RunTask(crew, inputTask, s, t1);
    ExecuteTasksStep(crew, inputTask, s, [t1, t2]);
    assert [t1, t2][1..] == [t2];
    if first.error.None? {
      ExecuteTasksStep(crew, inputTask, first.run, [t2]);
      assert [t2][1..] == [];
    }
  }
}
