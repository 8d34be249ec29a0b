/**
 * The orchestration engine as functions of the run state: what `get_tasks`,
 * `get_dependency_outputs`, `run_tasks` and `run_flow` compute and how each
 * manager and worker call changes the state. The class in `Orchestrator` is
 * proved to do exactly this.
 *
 * The manager and the workers are scripts of replies: each call consumes the
 * next reply of the callee's script, and a call to an exhausted script fails.
 * Every call is logged with the `run_depends` it was given.
 */
module Engine {

  import opened Wrappers
  import opened Text
  import opened Types
  import OD = OrderedDict
  import Roster
  import Plan
  import FinalAnswer

  /**
   * The configuration a run cannot change: the workers' names, in roster order,
   * `manager.max_loops`, and the `agents_descriptions` text sent to the manager
   * (the orchestrator builds it with `Roster.AgentsDescriptions(agentNames)`).
   */
  datatype Crew = Crew(agentNames: seq<string>, maxLoops: nat, roster: string)

  /**
   * The run state: `_results`, `_run_depends`, the replies the manager and each
   * worker have still to give, and the log of calls made so far.
   */
  datatype Run = Run(results: OD.Dict<Entry>, runDepends: seq<NodeRef>,
                     managerScript: seq<ManagerReply>, agentScripts: seq<seq<AgentReply>>,
                     calls: seq<Call>)

  /** One reply script per worker, and a well-formed results dictionary. */
  predicate WellFormed(crew: Crew, s: Run) {
    OD.Valid(s.results) && |s.agentScripts| == |crew.agentNames|
  }

  /** The state after a step and the exception it raised, if any. */
  datatype Outcome = Outcome(run: Run, error: Option<Error>)
  {
    /** The step gave up on a task after its last assignment attempt. */
    predicate Exhausted() {
      error.Some? && error.value.AssignmentFailed?
    }
  }

  // ---------------------------------------------------------------------
  // Collaborator calls
  // ---------------------------------------------------------------------

  /** The reply to the next manager call. */
  function ManagerAnswer(s: Run): ManagerReply {
    if s.managerScript == [] then ManagerReply(Failed, None, "") else s.managerScript[0]
  }

  /** `self.manager.run(...)`, then `self._run_depends = [manager]`, whatever the reply's status. */
  function AfterManagerCall(s: Run, request: Request): Run {
    s.(managerScript := if s.managerScript == [] then [] else s.managerScript[1..],
       calls := s.calls + [ManagerCall(request, s.runDepends)],
       runDepends := [ManagerNode])
  }

  /** The reply to the next call of worker `i`. */
  function AgentAnswer(s: Run, i: nat): AgentReply
    requires i < |s.agentScripts|
  {
    if s.agentScripts[i] == [] then AgentReply(Failed, "") else s.agentScripts[i][0]
  }

  /** `assigned_agent.run(...)`, then `self._run_depends = [assigned_agent]`, whatever the reply's status. */
  function AfterAgentCall(s: Run, i: nat, input: string): Run
    requires i < |s.agentScripts|
  {
    var script := s.agentScripts[i];
    s.(agentScripts := s.agentScripts[i := if script == [] then [] else script[1..]],
       calls := s.calls + [AgentCall(i, input, s.runDepends)],
       runDepends := [AgentNode(i)])
  }

  // ---------------------------------------------------------------------
  // Planning: get_tasks
  // ---------------------------------------------------------------------

  /** What `get_tasks` makes of the manager's planning reply. */
  function PlanOutcome(reply: ManagerReply, validate: Plan.Validator): Result<seq<Task>, Error> {
    if reply.status != Succeeded then Failure(PlanRequestFailed(reply.rendered))
    else
      match reply.result
      case None => Failure(PlanResultMissing)
      case Some(text) => Plan.ParseTasksFromOutput(text, validate)
  }

  /** The planning request of `get_tasks`. */
  function PlanCall(crew: Crew, inputTask: string): Request {
    PlanRequest(inputTask, crew.roster)
  }

  // ---------------------------------------------------------------------
  // Dependency context: get_dependency_outputs
  // ---------------------------------------------------------------------

  const ContextTitle: string := "Here is the previously collected information:"

  /** The bold title, which is all that is left of the context when no dependency has a result. */
  const ContextLine: string := "**" + ContextTitle + "**"

  /** The header line that opens a non-empty dependency context. */
  const ContextHeader: string := "**" + ContextTitle + "**\n"

  /** The block one recorded dependency contributes. */
  function DependencyBlock(e: Entry): string {
    e.Block() + "\n\n"
  }

  /** The blocks of the dependencies that have a recorded result, in the order they are listed. */
  function DependencyBlocks(results: OD.Dict<Entry>, deps: seq<int>): string
    decreases |deps|
  {
    if deps == [] then ""
    else
      var d := deps[|deps| - 1];
      DependencyBlocks(results, deps[..|deps| - 1])
        + (if d in results.entries then DependencyBlock(results.entries[d]) else "")
  }

  /**
   * `get_dependency_outputs`: nothing for no dependencies; otherwise the header
   * and the blocks, stripped. The header keeps it from being empty.
   */
  function DependencyContext(results: OD.Dict<Entry>, deps: seq<int>): (r: string)
    ensures r == "" <==> deps == []
  {
    if deps == [] then ""
    else
      var text := ContextHeader + DependencyBlocks(results, deps);
      assert text[0] == ContextHeader[0] == '*';
      StripNonEmpty(text, 0);
      Strip(text)
  }

  // ---------------------------------------------------------------------
  // Task execution: run_tasks
  // ---------------------------------------------------------------------

  /** `task_per_llm` before any attempt: description, expected output, then the dependency context if any. */
  function TaskPrompt(task: Task, context: string): string {
    "**" + task.description + "**\n**Required information for output**: " + RenderOutput(task.output)
      + (if context != "" then "\n" + context else "")
  }

  /** The note appended to the prompt after an attempt that did not dispatch the task. */
  function Feedback(reply: ManagerReply): string {
    "Error is occured:" + reply.rendered
  }

  /** The manager's choice when its reply is a success: the index it names; otherwise none. */
  function ChosenIndex(reply: ManagerReply): int {
    if reply.status == Succeeded then Roster.AgentIndex(reply.result) else -1
  }

  /** The attempt dispatches the task: a successful reply naming a worker of the roster. */
  predicate Dispatches(crew: Crew, reply: ManagerReply) {
    reply.status == Succeeded && 0 <= ChosenIndex(reply) < |crew.agentNames|
  }

  /** Worker `index` runs the task: a failed reply raises, otherwise its content is recorded under the task's id. */
  function Dispatched(crew: Crew, s: Run, task: Task, index: nat, prompt: string): (o: Outcome)
    requires WellFormed(crew, s) && index < |crew.agentNames|
    ensures WellFormed(crew, o.run)
  {
    var answer := AgentAnswer(s, index);
    var s2 := AfterAgentCall(s, index, prompt);
    if answer.status != Succeeded then Outcome(s2, Some(WorkerFailed(task.id, index, answer.content)))
    else Outcome(s2.(results := OD.Put(s2.results, task.id, Entry(task.name, answer.content))), None)
  }

  /**
   * The retry loop of one task, with `left` attempts to go: ask the manager to
   * assign the task; on a usable index run that worker and record its result
   * (or fail the run if the worker fails); otherwise note the manager's reply in
   * the prompt and try again, failing the run after the last attempt.
   */
  function Attempts(crew: Crew, inputTask: string, s: Run, task: Task, prompt: string, left: nat): (o: Outcome)
    requires WellFormed(crew, s) && left >= 1
    ensures WellFormed(crew, o.run)
    decreases left
  {
    var reply := ManagerAnswer(s);
    var s1 := AfterManagerCall(s, AssignRequest(inputTask, prompt, crew.roster));
    if Dispatches(crew, reply) then Dispatched(crew, s1, task, ChosenIndex(reply), prompt)
    else if left == 1 then Outcome(s1, Some(AssignmentFailed(task.id, reply.rendered)))
    else Attempts(crew, inputTask, s1, task, prompt + Feedback(reply), left - 1)
  }

  /** One iteration of the outer loop of `run_tasks`. */
  function RunTask(crew: Crew, inputTask: string, s: Run, task: Task): (o: Outcome)
    requires WellFormed(crew, s) && crew.maxLoops >= 1
    ensures WellFormed(crew, o.run)
  {
    Attempts(crew, inputTask, s, task, TaskPrompt(task, DependencyContext(s.results, task.dependencies)), crew.maxLoops)
  }

  /** `run_tasks`: the tasks in plan order, stopping at the first exception. */
  function ExecuteTasks(crew: Crew, inputTask: string, s: Run, tasks: seq<Task>): (o: Outcome)
    requires WellFormed(crew, s) && crew.maxLoops >= 1
    ensures WellFormed(crew, o.run)
    decreases |tasks|
  {
    if tasks == [] then Outcome(s, None)
    else
      var first := RunTask(crew, inputTask, s, tasks[0]);
      if first.error.Some? then first else ExecuteTasks(crew, inputTask, first.run, tasks[1..])
  }

  /** One step of `run_tasks`: the first task, then the rest unless the first raised. */
  lemma ExecuteTasksStep(crew: Crew, inputTask: string, s: Run, tasks: seq<Task>)
    requires WellFormed(crew, s) && crew.maxLoops >= 1 && tasks != []
    ensures var first := RunTask(crew, inputTask, s, tasks[0]);
      ExecuteTasks(crew, inputTask, s, tasks)
      == if first.error.Some? then first else ExecuteTasks(crew, inputTask, first.run, tasks[1..])
  {
  }

  // ---------------------------------------------------------------------
  // The whole run: run_flow
  // ---------------------------------------------------------------------

  datatype FlowResult = FlowResult(run: Run, answer: Result<string, Error>)

  /** `run_flow`: plan, execute the plan, answer. */
  function Flow(crew: Crew, validate: Plan.Validator, settings: FinalAnswer.Settings, inputTask: string,
                history: seq<string>, summarize: FinalAnswer.Summarizer, s: Run): (f: FlowResult)
    requires WellFormed(crew, s) && crew.maxLoops >= 1
    ensures WellFormed(crew, f.run)
  {
    var s1 := AfterManagerCall(s, PlanCall(crew, inputTask));
    match PlanOutcome(ManagerAnswer(s), validate)
    case Failure(e) => FlowResult(s1, Failure(e))
    case Success(tasks) =>
      var o := ExecuteTasks(crew, inputTask, s1, tasks);
      if o.error.Some? then FlowResult(o.run, Failure(o.error.value))
      else FlowResult(o.run, FinalAnswer.GenerateFinalAnswer(o.run.results, settings, inputTask, history, summarize))
  }
}
