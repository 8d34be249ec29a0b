/**
 * `LinearOrchestrator`: the object whose methods update `_results`,
 * `_run_depends` and `_chat_history` in place. Each method is proved to change
 * the state exactly as the matching function of `Engine` says.
 */
module Orchestrator {

  import opened Wrappers
  import opened Types
  import OD = OrderedDict
  import Roster
  import Plan
  import FinalAnswer
  import opened Engine

  class LinearOrchestrator {

    /** The roster's names, `manager.max_loops`, the two summarizer flags and the task validator. */
    const agentNames: seq<string>
    const maxLoops: nat
    const settings: FinalAnswer.Settings
    const validator: Plan.Validator
    /** `agents_descriptions`: the roster never changes, so its text is rendered once. */
    const roster: string

    /** `_results`, `_run_depends` and `_chat_history`. */
    var results: OD.Dict<Entry>
    var runDepends: seq<NodeRef>
    var chatHistory: seq<string>

    /** The collaborators' replies still to come, and the calls made to them. */
    var managerScript: seq<ManagerReply>
    var agentScripts: seq<seq<AgentReply>>
    var calls: seq<Call>

    function Config(): Crew {
      Crew(agentNames, maxLoops, roster)
    }

    function State(): Run
      reads this
    {
      Run(results, runDepends, managerScript, agentScripts, calls)
    }

    predicate Valid()
      reads this
    {
      maxLoops >= 1 && WellFormed(Config(), State())
    }

    /** `__init__`: empty results and no run dependency. */
    constructor(agentNames: seq<string>, maxLoops: nat, settings: FinalAnswer.Settings, validator: Plan.Validator,
                managerScript: seq<ManagerReply>, agentScripts: seq<seq<AgentReply>>)
      requires maxLoops >= 1 && |agentScripts| == |agentNames|
      ensures Valid()
      ensures this.agentNames == agentNames && this.maxLoops == maxLoops
      ensures this.settings == settings && this.validator == validator
      ensures roster == Roster.AgentsDescriptions(agentNames)
      ensures results == OD.Empty() && runDepends == [] && chatHistory == []
      ensures this.managerScript == managerScript && this.agentScripts == agentScripts && calls == []
    {
      this.agentNames := agentNames;
      this.maxLoops := maxLoops;
      this.settings := settings;
      this.validator := validator;
      roster := Roster.AgentsDescriptions(agentNames);
      results := OD.Empty();
      runDepends := [];
      chatHistory := [];
      this.managerScript := managerScript;
      this.agentScripts := agentScripts;
      calls := [];
    }

    /** `reset_run_state`: forget the results, the run dependency and the history of the previous run. */
    method ResetRunState()
      requires Valid()
      modifies this
      ensures Valid()
      ensures results == OD.Empty() && runDepends == [] && chatHistory == []
      ensures managerScript == old(managerScript) && agentScripts == old(agentScripts) && calls == old(calls)
    {
      results := OD.Empty();
      runDepends := [];
      chatHistory := [];
    }

    /** `self.manager.run(...)` followed by `self._run_depends = [manager]`. */
    method CallManager(request: Request) returns (reply: ManagerReply)
      modifies this
      ensures reply == ManagerAnswer(old(State()))
      ensures State() == AfterManagerCall(old(State()), request)
      ensures chatHistory == old(chatHistory)
    {
      if managerScript == [] {
        reply := ManagerReply(Failed, None, "");
      } else {
        reply := managerScript[0];
        managerScript := managerScript[1..];
      }
      calls := calls + [ManagerCall(request, runDepends)];
      runDepends := [ManagerNode];
    }

    /** `assigned_agent.run(...)` followed by `self._run_depends = [assigned_agent]`. */
    method CallAgent(i: nat, input: string) returns (reply: AgentReply)
      requires i < |agentScripts|
      modifies this
      ensures reply == AgentAnswer(old(State()), i)
      ensures State() == AfterAgentCall(old(State()), i, input)
      ensures chatHistory == old(chatHistory)
    {
      var script := agentScripts[i];
      if script == [] {
        reply := AgentReply(Failed, "");
      } else {
        reply := script[0];
        agentScripts := agentScripts[i := script[1..]];
      }
      calls := calls + [AgentCall(i, input, runDepends)];
      runDepends := [AgentNode(i)];
    }

    /** `get_dependency_outputs`: reads `_results`, changes nothing. */
    method GetDependencyOutputs(dependencies: seq<int>) returns (r: string)
      ensures r == DependencyContext(results, dependencies)
    {
      if dependencies == [] {
        return "";
      }
      var formatted := ContextHeader;
      ghost var blocks := "";
      var i := 0;
      while i < |dependencies|
        invariant 0 <= i <= |dependencies|
        invariant formatted == ContextHeader + blocks && blocks == DependencyBlocks(results, dependencies[..i])
      {
        var dep := dependencies[i];
        ghost var added := "";
        if dep in results.entries {
          var entry := results.entries[dep];
          added := DependencyBlock(entry);
          formatted := formatted + (entry.Block() + "\n\n");
        }
        assert dependencies[..i + 1][..i] == dependencies[..i] && dependencies[..i + 1][i] == dep;
        assert DependencyBlocks(results, dependencies[..i + 1]) == blocks + added;
        blocks := blocks + added;
        i := i + 1;
      }
      assert dependencies[..i] == dependencies;
      r := Text.Strip(formatted);
    }

    /** `get_tasks`: ask the manager for a plan and parse it. */
    method GetTasks(inputTask: string) returns (tasks: Result<seq<Task>, Error>)
      requires Valid()
      modifies this
      ensures Valid()
      ensures tasks == PlanOutcome(ManagerAnswer(old(State())), validator)
      ensures State() == AfterManagerCall(old(State()), PlanCall(Config(), inputTask))
      ensures chatHistory == old(chatHistory)
    {
      var reply := CallManager(PlanRequest(inputTask, roster));
      if reply.status != Succeeded {
        return Failure(PlanRequestFailed(reply.rendered));
      }
      match reply.result
      case None =>
        tasks := Failure(PlanResultMissing);
      case Some(text) =>
        tasks := Plan.ParseTasksFromOutput(text, validator);
    }

    /**
     * `run_tasks`: for each task in order, build its prompt and run the retry loop;
     * the first exception ends the run.
     */
    method RunTasks(tasks: seq<Task>, inputTask: string) returns (error: Option<Error>)
      requires Valid()
      modifies this
      ensures Valid()
      ensures Outcome(State(), error) == ExecuteTasks(Config(), inputTask, old(State()), tasks)
      ensures chatHistory == old(chatHistory)
    {
      var n := 0;
      while n < |tasks|
        invariant 0 <= n <= |tasks|
        invariant Valid() && chatHistory == old(chatHistory)
        invariant ExecuteTasks(Config(), inputTask, State(), tasks[n..])
               == ExecuteTasks(Config(), inputTask, old(State()), tasks)
      {
        var task := tasks[n];
        ghost var start := State();
        ExecuteTasksStep(Config(), inputTask, start, tasks[n..]);
        assert tasks[n..][0] == task && tasks[n..][1..] == tasks[n + 1..];
        var prompt := TaskPerLlm(task);
        error := AssignTask(task, prompt, inputTask);
        if error.Some? {
          return;
        }
        n := n + 1;
      }
      error := None;
    }

    /**
     * The dispatch branch of `run_tasks`: run the chosen worker on the prompt;
     * fail the run if it fails, otherwise record its content under the task's id.
     */
    method Dispatch(task: Task, index: nat, input: string) returns (error: Option<Error>)
      requires Valid() && index < |agentNames|
      modifies this
      ensures Valid() && chatHistory == old(chatHistory)
      ensures Outcome(State(), error) == Dispatched(Config(), old(State()), task, index, input)
    {
      var answer := CallAgent(index, input);
      if answer.status != Succeeded {
        return Some(WorkerFailed(task.id, index, answer.content));
      }
      results := OD.Put(results, task.id, Entry(task.name, answer.content));
      error := None;
    }

    /** The first prompt of a task in `run_tasks`: its description, expected output and dependency context. */
    method TaskPerLlm(task: Task) returns (prompt: string)
      ensures prompt == TaskPrompt(task, DependencyContext(results, task.dependencies))
    {
      prompt := "**" + task.description + "**\n**Required information for output**: " + RenderOutput(task.output);
      var context := GetDependencyOutputs(task.dependencies);
      if context != "" {
        prompt := prompt + ("\n" + context);
      }
    }

    /**
     * The retry loop of `run_tasks` for one task: at most `max_loops` calls to the
     * manager; a usable index dispatches the task and ends the loop, anything else
     * appends the manager's reply to the prompt for the next attempt.
     */
    method AssignTask(task: Task, prompt: string, inputTask: string) returns (error: Option<Error>)
      requires Valid()
      modifies this
      ensures Valid()
      ensures Outcome(State(), error) == Attempts(Config(), inputTask, old(State()), task, prompt, maxLoops)
      ensures chatHistory == old(chatHistory)
    {
      var taskPerLlm := prompt;
      var success := false;
      var last := ManagerReply(Failed, None, "");
      var attempt := 0;
      while attempt < maxLoops
        invariant 0 <= attempt <= maxLoops
        invariant Valid() && chatHistory == old(chatHistory) && !success
        invariant attempt < maxLoops ==>
          Attempts(Config(), inputTask, State(), task, taskPerLlm, maxLoops - attempt)
          == Attempts(Config(), inputTask, old(State()), task, prompt, maxLoops)
        invariant attempt == maxLoops ==>
          Outcome(State(), Some(AssignmentFailed(task.id, last.rendered)))
          == Attempts(Config(), inputTask, old(State()), task, prompt, maxLoops)
      {
        ghost var before := State();
        var reply := CallManager(AssignRequest(inputTask, taskPerLlm, roster));
        last := reply;
        if reply.status == Succeeded {
          var index := Roster.AgentIndex(reply.result);
          if 0 <= index < |agentNames| {
            error := Dispatch(task, index, taskPerLlm);
            if error.Some? {
              return;
            }
            success := true;
            break;
          }
        }
        taskPerLlm := taskPerLlm + Feedback(reply);
        attempt := attempt + 1;
      }
      if !success {
        return Some(AssignmentFailed(task.id, last.rendered));
      }
      error := None;
    }

    /** `run_flow`: `get_tasks`, then `run_tasks`, then `generate_final_answer`; the first exception ends it. */
    method RunFlow(inputTask: string, summarize: FinalAnswer.Summarizer) returns (answer: Result<string, Error>)
      requires Valid()
      modifies this
      ensures Valid()
      ensures FlowResult(State(), answer)
           == Flow(Config(), validator, settings, inputTask, old(chatHistory), summarize, old(State()))
      ensures chatHistory == old(chatHistory)
    {
      var planned := GetTasks(inputTask);
      if planned.Failure? {
        return Failure(planned.error);
      }
      var error := RunTasks(planned.value, inputTask);
      if error.Some? {
        return Failure(error.value);
      }
      answer := FinalAnswer.GenerateFinalAnswer(results, settings, inputTask, chatHistory, summarize);
    }
  }
}
