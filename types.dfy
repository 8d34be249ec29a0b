/**
 * The values the linear orchestrator works with: the tasks of a plan, the
 * replies of the manager and of the workers, the calls made to them, the
 * recorded results and the errors that end a run.
 */
module Types {

  import opened Wrappers

  /** `Task.output`: a free-text description, or a mapping shown through its Python `str()`. */
  datatype TaskOutput = Text(text: string) | Mapping(rendered: string)

  /** `str(output)`, as it appears inside an f-string. */
  function RenderOutput(o: TaskOutput): string {
    match o
    case Text(t) => t
    case Mapping(r) => r
  }

  /** One task of a plan: the pydantic model `Task`. */
  datatype Task = Task(id: int, name: string, description: string, dependencies: seq<int>, output: TaskOutput)

  /** `RunnableStatus`, reduced to the distinction the orchestrator makes. */
  datatype Status = Succeeded | Failed

  /**
   * A manager reply: its status, the `"result"` entry of its content when there is
   * one, and `str()` of its whole output, which the retry notes and the
   * assignment failure quote.
   */
  datatype ManagerReply = ManagerReply(status: Status, result: Option<string>, rendered: string)

  /** A worker reply: its status and its `"content"`. */
  datatype AgentReply = AgentReply(status: Status, content: string)

  /** The node a run dependency points at: the manager, or the worker at a roster index. */
  datatype NodeRef = ManagerNode | AgentNode(index: nat)

  /** The `input_data` of a manager call. */
  datatype Request =
    | PlanRequest(inputTask: string, agents: string)
    | AssignRequest(inputTask: string, task: string, agents: string)

  /** One call into a collaborator, with the `run_depends` it was given. */
  datatype Call =
    | ManagerCall(request: Request, dependsOn: seq<NodeRef>)
    | AgentCall(index: nat, input: string, dependsOn: seq<NodeRef>)
  {
    /** The node this call went to. */
    function Node(): NodeRef {
      match this
      case ManagerCall(_, _) => ManagerNode
      case AgentCall(i, _, _) => AgentNode(i)
    }
  }

  /** An entry of `_results`: `{"name": ..., "result": ...}`. */
  datatype Entry = Entry(name: string, result: string)
  {
    /** The block that shows this entry in the final answer and in dependency context. */
    function Block(): string {
      "**Task:** " + name + "\n**Result:** " + result
    }

    /** The block ends with the result. */
    lemma BlockEndsWithResult()
      ensures |result| <= |Block()| && Block()[|Block()| - |result|..] == result
    {
      var heading := "**Task:** " + name + "\n**Result:** ";
      assert Block() == heading + result;
    }
  }

  /** The exceptions that end a run. */
  datatype Error =
    | PlanRequestFailed(detail: string)
    | PlanResultMissing
    | OutputTagsMissing
    | PlanInvalid(message: string)
    | AssignmentFailed(taskId: int, detail: string)
    | WorkerFailed(taskId: int, agentIndex: nat, detail: string)
    | FinalAnswerTagsMissing
}
