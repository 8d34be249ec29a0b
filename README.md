# LinearOrchestrator, modelled in Dafny

This project models the linear orchestrator of dynamiq
(`dynamiq/nodes/agents/orchestrators/linear.py`) and proves properties of the model.
The orchestrator works in four steps:

- It asks a manager agent for a plan: a JSON list of tasks between `<output>` tags.
- It runs the tasks in plan order. For each task it builds a prompt from the task
  and from the results of the task's dependencies.
- For each task it asks the manager, up to `max_loops` times, which worker should
  run it. It reads the worker's index from the reply, runs that worker and records
  the worker's result under the task's id.
- It answers with the recorded results joined together, with the result of the
  highest task id, or with a summary between `<final_answer>` tags.

A failed or unusable assignment reply is retried, up to `max_loops` times. A
planning failure, a worker failure, a task whose retries are used up and a
summary without tags raise an exception, which ends the run.

Module by module:

- `Text` holds the Python string operations the orchestrator relies on:
  - `strip`, `str.find`, `replace(p, "")` and `"\n\n".join`;
  - the non-greedy `re.search(open + "(.*?)" + close, s, re.DOTALL)`;
  - `int()` on text and `re.match(r"^\d+", s)`.
- `OrderedDict` is the insertion-ordered dictionary `_results`.
- `Types` holds the tasks, the replies, the calls, the results entries and the
  exceptions.
- `Plan` is `parse_tasks_from_output`.
- `Roster` is `agents_descriptions` and the reading of a worker index.
- `FinalAnswer` is `generate_final_answer`.
- `Engine` states `get_tasks`, `get_dependency_outputs`, `run_tasks` and `run_flow`
  as functions of a run state.
- `EngineLemmas` proves the budget, the fail-fast behaviour, what is recorded, the
  run-dependency chain and the dependency context.
- `Scenario` is a complete two-task run.
- `Orchestrator` is the class `LinearOrchestrator`. Its methods update `_results`,
  `_run_depends` and `_chat_history` in place. Each method is proved to compute
  exactly what the matching `Engine` function says.

The manager and the workers are modelled as scripts of replies held in the run state.
Each call consumes the next reply of the callee's script, and a call to an exhausted
script fails. Every call is logged together with the `run_depends` it was given, so
the order of calls and the run-dependency chain are part of the state the lemmas
speak about.

Some behaviours of the code that a reader might not expect, all kept by the model:

- `_run_depends` is set after every manager and worker call, whatever the call's
  status (dynamiq/nodes/agents/orchestrators/linear.py:115, 196, 228).
- The summariser is called in two cases. One is summarize-all. The other is
  summarize-all off with no result recorded: `max(..., default=None)` gives
  `None` and the code falls through to summarising (dynamiq/nodes/agents/orchestrators/linear.py:270-279).
- When none of the listed dependencies has a result, the dependency context is the
  bold header with its trailing newline removed, not an empty string. The context
  is stripped on both sides (dynamiq/nodes/agents/orchestrators/linear.py:164, 171).
- A task id that appears twice in a plan overwrites its earlier entry in
  `_results`, where it stood (dynamiq/nodes/agents/orchestrators/linear.py:236-239).
  `FinalAnswer.TasksOutputsPutExisting` states what the answer then shows. The
  lemmas about recording whole plans assume distinct ids that are not yet recorded.
- `.replace("json", "")` deletes every `json` in the payload, also inside task
  descriptions (dynamiq/nodes/agents/orchestrators/linear.py:142, `Plan.CleanPayloadDropsJsonWord`).
- `int()` skips the whitespace around a number that `str.isspace()` accepts, except
  the separators U+001C to U+001F, which make it raise. `strip()` removes them.
  So `"\x1c0"` names no worker (dynamiq/nodes/agents/orchestrators/linear.py:200-214, `Roster.AgentIndexAfterSeparator`).

## Model

| member | source | states |
|---|---|---|
| Text.LStripSuffix | dynamiq/nodes/agents/orchestrators/linear.py:139 | what `strip()` drops at the front is whitespace, and what it keeps is a suffix |
| Text.RStripPrefix | dynamiq/nodes/agents/orchestrators/linear.py:139 | what `strip()` drops at the back is whitespace, and what it keeps is a prefix |
| Text.Strip | dynamiq/nodes/agents/orchestrators/linear.py:139 | the stripped text is no longer than the input and neither starts nor ends with whitespace |
| Text.StripExact | dynamiq/nodes/agents/orchestrators/linear.py:151 | stripping whitespace around a core that has none at its ends gives exactly that core |
| Text.StripNonEmpty | dynamiq/nodes/agents/orchestrators/linear.py:171 | a text with a non-space character does not strip to nothing |
| Text.Find | dynamiq/nodes/agents/orchestrators/linear.py:134 | the position found is the leftmost occurrence at or after the start; none means no occurrence at all |
| Text.SearchTagFails | dynamiq/nodes/agents/orchestrators/linear.py:134-137 | the tag search fails exactly when no opening tag is followed by a closing tag |
| Text.SearchTagFound | dynamiq/nodes/agents/orchestrators/linear.py:134-139 | a found group is the text from the leftmost opening tag to the nearest closing tag after it (the non-greedy `(.*?)` with DOTALL) |
| Text.SearchTagRoundTrip | dynamiq/nodes/agents/orchestrators/linear.py:134-139 | a body placed between the tags is recovered exactly, after a prefix holding no opening tag, for a body holding no closing tag, whatever follows the closing tag |
| Text.DeleteAll | dynamiq/nodes/agents/orchestrators/linear.py:142 | `replace(p, "")` never lengthens the text |
| Text.DeleteAllAbsent | dynamiq/nodes/agents/orchestrators/linear.py:142 | text without the pattern is left as it is |
| Text.DeleteAllSplit | dynamiq/nodes/agents/orchestrators/linear.py:142 | a character outside the pattern splits the deletion into two independent halves |
| Text.Join | dynamiq/nodes/agents/orchestrators/linear.py:266-268 | a join starts with its first part |
| Text.JoinEndsWithLast | dynamiq/nodes/agents/orchestrators/linear.py:266-268 | a join ends with its last part |
| Text.NatToString | dynamiq/nodes/agents/orchestrators/linear.py:101 | `str(i)` of a roster index is a non-empty run of digits |
| Text.DecimalRoundTrip | dynamiq/nodes/agents/orchestrators/linear.py:200 | reading back the numeral of `n` gives `n` |
| Text.DigitPrefix | dynamiq/nodes/agents/orchestrators/linear.py:207-210 | `^\d+` matches the longest prefix of digits |
| Text.PyInt | dynamiq/nodes/agents/orchestrators/linear.py:200-202 | defines `int()` on text: the whitespace `int()` skips is dropped at both ends, then an optional sign and a run of digits are read; `None` when it raises; its readings are stated by the `PyInt` lemmas below |
| Text.LeadingInt | dynamiq/nodes/agents/orchestrators/linear.py:207-211 | defines the fallback `int(re.match(r"^\d+", s).group())`: `None` when there is no match; stated by `Text.LeadingIntOfNumeral` |
| Text.IntStripExact | dynamiq/nodes/agents/orchestrators/linear.py:200 | `int()` parses exactly the core of a text when the whitespace around it is whitespace `int()` skips |
| Text.PyIntUnsigned | dynamiq/nodes/agents/orchestrators/linear.py:200 | `int()` reads a run of digits, with `_` between digits, surrounded by whitespace `int()` skips, as its decimal value |
| Text.PyIntSigned | dynamiq/nodes/agents/orchestrators/linear.py:200 | `int()` reads a minus sign followed by a run of digits, surrounded by whitespace `int()` skips, as the negated value |
| Text.PyIntRejects | dynamiq/nodes/agents/orchestrators/linear.py:200-202 | `int()` raises on unsigned text holding a character that is neither a digit nor `_` |
| Text.PyIntOfNumeral | dynamiq/nodes/agents/orchestrators/linear.py:200 | `int()` reads a numeral surrounded by whitespace `int()` skips as that number |
| Text.PyIntRejectsSeparator | dynamiq/nodes/agents/orchestrators/linear.py:200-202 | `int()` raises on a numeral next to one of U+001C to U+001F, although `strip()` removes that character |
| Text.PyIntOfNegative | dynamiq/nodes/agents/orchestrators/linear.py:200 | `int()` reads `-n` as minus `n` |
| Text.LeadingIntOfNumeral | dynamiq/nodes/agents/orchestrators/linear.py:207-211 | the `^\d+` fallback reads a numeral followed by a non-digit as that number |
| Text.PyIntOfNumeralPrefix | dynamiq/nodes/agents/orchestrators/linear.py:200-211 | on a numeral followed by prose, `int()` either reads that number or raises, never another number |
| OrderedDict.Empty | dynamiq/nodes/agents/orchestrators/linear.py:77-80 | `{}` has no keys and no entries |
| OrderedDict.Put | dynamiq/nodes/agents/orchestrators/linear.py:236-239 | `d[k] = v` sets the entry; the key is appended exactly when it is new, and key order is otherwise unchanged |
| OrderedDict.ValuesPutNew | dynamiq/nodes/agents/orchestrators/linear.py:236-239 | assigning a new key appends its value after all the others |
| OrderedDict.ValuesPutExisting | dynamiq/nodes/agents/orchestrators/linear.py:236-239 | reassigning a present key replaces its value where it stood |
| Plan.ParseTasksFromOutput | dynamiq/nodes/agents/orchestrators/linear.py:131-157 | parsing fails with the missing-tags error exactly when no `<output>` is followed by `</output>` |
| Plan.ParseRoundTrip | dynamiq/nodes/agents/orchestrators/linear.py:134-157 | a payload between the tags, with any whitespace inside them, reaches the validator exactly, when the text before the tags holds no `<output>`, and the payload holds no `</output>`, no triple backquote and no `json`, and neither starts nor ends with whitespace |
| Plan.ParseFencedRoundTrip | dynamiq/nodes/agents/orchestrators/linear.py:134-157 | the same, under the same conditions, for a payload inside a Markdown code fence tagged `json`: fence markers and tag are removed |
| Plan.DeleteFence | dynamiq/nodes/agents/orchestrators/linear.py:142 | removing the code-fence markers leaves the language tag and the payload between newlines |
| Plan.DeleteLanguageTag | dynamiq/nodes/agents/orchestrators/linear.py:142 | removing `json` then leaves the payload between newlines |
| Plan.CleanPayloadDropsJsonWord | dynamiq/nodes/agents/orchestrators/linear.py:142 | a `json` inside the task list itself is deleted too |
| Plan.CleanPayload | dynamiq/nodes/agents/orchestrators/linear.py:139-143 | defines the cleaning of the tagged text: strip, delete the fence markers and `json`, strip again; stated by `Plan.ParseRoundTrip` and `Plan.ParseFencedRoundTrip` |
| Roster.AgentsDescriptions | dynamiq/nodes/agents/orchestrators/linear.py:98-101 | the roster text is empty exactly when there are no workers |
| Roster.DescribeSnoc | dynamiq/nodes/agents/orchestrators/linear.py:101 | adding a worker adds one line, numbered with its position, after a newline |
| Roster.DescribeExample | dynamiq/nodes/agents/orchestrators/linear.py:101 | two workers are rendered as `0. Coder\n1. Writer` |
| Roster.AgentIndex | dynamiq/nodes/agents/orchestrators/linear.py:198-214 | defines the index read from a reply: `int()` of the result, else its leading digits, else `-1`; stated by the `AgentIndex` lemmas below |
| Roster.AgentIndexOfNumeral | dynamiq/nodes/agents/orchestrators/linear.py:200 | a bare index surrounded by whitespace `int()` skips names that worker |
| Roster.AgentIndexAfterSeparator | dynamiq/nodes/agents/orchestrators/linear.py:200-214 | an index after one of U+001C to U+001F gives `-1`: `int()` raises and `^\d+` does not match |
| Roster.AgentIndexOfNumeralPrefix | dynamiq/nodes/agents/orchestrators/linear.py:200-211 | an index followed by prose is read by the leading-digits fallback |
| Roster.AgentIndexOfNegative | dynamiq/nodes/agents/orchestrators/linear.py:200 | a negative number is read as it is, and so names no worker |
| Roster.AgentIndexRejects | dynamiq/nodes/agents/orchestrators/linear.py:200-214 | a missing result, or one that cannot start a number, gives `-1` |
| Roster.AgentIndexOfDigit | dynamiq/nodes/agents/orchestrators/linear.py:200 | `"2"` names worker 2 |
| Roster.AgentIndexOfExplained | dynamiq/nodes/agents/orchestrators/linear.py:202-211 | `"2 (Writer)"` makes `int()` raise, and the fallback reads 2 |
| Roster.AgentIndexOfWord | dynamiq/nodes/agents/orchestrators/linear.py:212-214 | `"abc"` gives `-1` |
| FinalAnswer.MaxKey | dynamiq/nodes/agents/orchestrators/linear.py:272 | `max(keys, default=None)` is `None` exactly for no keys, and otherwise a key no smaller than any other |
| FinalAnswer.GenerateFinalAnswer | dynamiq/nodes/agents/orchestrators/linear.py:255-290 | only the summarising mode can fail, and only with the missing `<final_answer>` tags error |
| FinalAnswer.TasksOutputs | dynamiq/nodes/agents/orchestrators/linear.py:266-268 | defines the concatenation answer: one block per recorded entry, joined by blank lines; stated by `FinalAnswer.TasksOutputsPutNew`, `FinalAnswer.TasksOutputsPutExisting` and `FinalAnswer.ConcatenationExample` |
| FinalAnswer.TasksOutputsPutNew | dynamiq/nodes/agents/orchestrators/linear.py:266-268 | recording a new task appends its block after a blank line |
| FinalAnswer.TasksOutputsPutExisting | dynamiq/nodes/agents/orchestrators/linear.py:266-268 | recording a task again replaces its block where it stood |
| FinalAnswer.LastResultMode | dynamiq/nodes/agents/orchestrators/linear.py:270-277 | with summarize-all off and some result, the answer is the result under the highest id, and the summariser is not consulted |
| FinalAnswer.SummaryRoundTrip | dynamiq/nodes/agents/orchestrators/linear.py:279-288 | when summarising, the answer is the stripped text between the first pair of `<final_answer>` tags |
| FinalAnswer.SummaryTagsMissing | dynamiq/nodes/agents/orchestrators/linear.py:284-286 | when summarising, the answer fails exactly when the summary holds no tag pair |
| FinalAnswer.ConcatenationExample | dynamiq/nodes/agents/orchestrators/linear.py:266-290 | without the summariser, results 1 (A, x) and 2 (B, y) give their two blocks in insertion order, joined by a blank line |
| FinalAnswer.LastResultExample | dynamiq/nodes/agents/orchestrators/linear.py:270-277 | with summarize-all off, the same results give `"y"` |
| Engine.DependencyContext | dynamiq/nodes/agents/orchestrators/linear.py:159-171 | the context is empty exactly when the task lists no dependency |
| Engine.PlanOutcome | dynamiq/nodes/agents/orchestrators/linear.py:117-129 | defines what `get_tasks` makes of the planning reply: a failed reply, a missing result, or the parse of the result; stated by `EngineLemmas.FlowPlanFails` |
| Engine.TaskPrompt | dynamiq/nodes/agents/orchestrators/linear.py:177-181 | defines a task's first prompt: bold description, required output and, when non-empty, the dependency context on a new line; stated by `EngineLemmas.TaskFirstCall` |
| Engine.Feedback | dynamiq/nodes/agents/orchestrators/linear.py:243 | defines the note appended to the prompt after a rejected assignment, quoting the reply's output; stated by `EngineLemmas.AlwaysRejected` |
| Engine.ChosenIndex | dynamiq/nodes/agents/orchestrators/linear.py:198-214 | defines the manager's choice: the index read from a successful reply, `-1` for a failed one; stated by `Scenario.NamingDispatches` |
| Engine.Dispatched | dynamiq/nodes/agents/orchestrators/linear.py:216-239 | runs the chosen worker and raises on its failure or records its content; keeps the run well formed |
| Engine.Attempts | dynamiq/nodes/agents/orchestrators/linear.py:183-253 | the retry loop of one task, on at most `left` attempts; keeps the run well formed; stated by `EngineLemmas.AttemptsBudget`, `EngineLemmas.AttemptsChain` and `EngineLemmas.AttemptsResults` |
| Engine.RunTask | dynamiq/nodes/agents/orchestrators/linear.py:176-253 | one task: its prompt from the results so far, then the retry loop with `max_loops` attempts; keeps the run well formed; stated by `EngineLemmas.TaskResults` |
| Engine.ExecuteTasks | dynamiq/nodes/agents/orchestrators/linear.py:173-253 | the plan's tasks in order, stopping at the first that raises; keeps the run well formed; stated by the `Execute` lemmas below |
| Engine.Flow | dynamiq/nodes/agents/orchestrators/linear.py:292-305 | `run_flow`: plan, run the tasks, answer; keeps the run well formed; stated by the `Flow` lemmas below |
| EngineLemmas.DependencyBlocksJoin | dynamiq/nodes/agents/orchestrators/linear.py:164-169 | the loop's text is the blocks of the listed dependencies that have results, in listed order, each followed by a blank line |
| EngineLemmas.DependencyContextHeaderOnly | dynamiq/nodes/agents/orchestrators/linear.py:161-171 | with dependencies but none recorded, the context is the bold header alone |
| EngineLemmas.DependencyContextShape | dynamiq/nodes/agents/orchestrators/linear.py:164-171 | when the last present dependency's result is non-empty and ends in a non-space character, the context is the header line, then the present dependencies' blocks joined by blank lines |
| EngineLemmas.DependencyContextStripped | dynamiq/nodes/agents/orchestrators/linear.py:159-171 | for any listed dependencies, the context is the header line and the present dependencies' blocks joined by blank lines, with trailing whitespace removed |
| EngineLemmas.AttemptsBudget | dynamiq/nodes/agents/orchestrators/linear.py:184-253 | one task's retry loop makes between 1 and `max_loops` manager calls and one worker call, which comes last, unless it gives up; when it gives up it made exactly `max_loops` manager calls and no worker call |
| EngineLemmas.AttemptsChain | dynamiq/nodes/agents/orchestrators/linear.py:184-243 | each call of the retry loop is given the node of the call before it, and `_run_depends` ends on the last call |
| EngineLemmas.AttemptsResults | dynamiq/nodes/agents/orchestrators/linear.py:216-253 | a raising loop records nothing and raises for this task; a succeeding one returns the dispatched worker, whose first scripted reply was a success and is consumed, records that reply's content under the task's id and nothing else, and made that worker's call last |
| EngineLemmas.AlwaysRejected | dynamiq/nodes/agents/orchestrators/linear.py:184-253 | a manager that never names a usable worker: exactly `max_loops` calls, each sent the prompt with the notes of the earlier replies appended, then a failure quoting the last reply; no worker is called and nothing is recorded |
| EngineLemmas.TaskFirstCall | dynamiq/nodes/agents/orchestrators/linear.py:176-196 | a task's first call asks the manager to assign the prompt built from its description, expected output and dependency context |
| EngineLemmas.TaskResults | dynamiq/nodes/agents/orchestrators/linear.py:176-253 | one task raises with its id and records nothing, or records, under its id, the successful reply of the worker whose call came last |
| EngineLemmas.ExecuteExtends | dynamiq/nodes/agents/orchestrators/linear.py:173-253 | running tasks only appends to the call log |
| EngineLemmas.ExecuteManagerBudget | dynamiq/nodes/agents/orchestrators/linear.py:176-196 | a plan makes at most `max_loops` manager calls per task |
| EngineLemmas.ExecuteAgentBudget | dynamiq/nodes/agents/orchestrators/linear.py:176-242 | a plan makes at most one worker call per task, and exactly one per task when nothing raised |
| EngineLemmas.ExecuteBudget | dynamiq/nodes/agents/orchestrators/linear.py:173-253 | both budgets for a whole plan |
| EngineLemmas.ExecuteChain | dynamiq/nodes/agents/orchestrators/linear.py:173-253 | every call of a plan is given the node of the call before it, and `_run_depends` ends on the last call |
| EngineLemmas.ExecuteTasksAppend | dynamiq/nodes/agents/orchestrators/linear.py:176 | running `t1 + t2` runs `t1`, then `t2` unless a task of `t1` raised |
| EngineLemmas.ExecuteStops | dynamiq/nodes/agents/orchestrators/linear.py:229-253 | a raising run stopped at one task, after all earlier tasks succeeded, and raised for that task's id |
| EngineLemmas.ExecuteRecords | dynamiq/nodes/agents/orchestrators/linear.py:236-239 | a run without exception keeps every earlier key and records every task of the plan |
| EngineLemmas.ExecuteKeys | dynamiq/nodes/agents/orchestrators/linear.py:236-239 | with distinct fresh ids, the keys afterwards are the earlier keys followed by the plan's ids in plan order |
| EngineLemmas.ExecuteKeeps | dynamiq/nodes/agents/orchestrators/linear.py:236-239 | with distinct fresh ids, earlier entries are left as they were |
| EngineLemmas.ExecuteNames | dynamiq/nodes/agents/orchestrators/linear.py:236-239 | with distinct fresh ids, each task's result is filed under its own name |
| EngineLemmas.ContextOfTask | dynamiq/nodes/agents/orchestrators/linear.py:176-196 | task `i` is first sent the context of the results recorded so far, and a dependency contributes exactly when it was recorded before the run or is an earlier task of the plan |
| EngineLemmas.FlowPlanFails | dynamiq/nodes/agents/orchestrators/linear.py:103-129 | a plan that cannot be had (failed reply, no result, no tags, invalid) ends the run after the single planning call, with nothing recorded |
| EngineLemmas.FlowErrors | dynamiq/nodes/agents/orchestrators/linear.py:302-305 | a run's exception comes from planning, from a task of the plan (with its id), or from a summary without tags |
| EngineLemmas.FlowRecords | dynamiq/nodes/agents/orchestrators/linear.py:302-305 | with distinct fresh ids, a run that answers has recorded every planned task in plan order under its name |
| EngineLemmas.FlowChain | dynamiq/nodes/agents/orchestrators/linear.py:302-305 | the planning call comes first with the initial `run_depends`; each later call is given the node of the call before it |
| EngineLemmas.FlowBudget | dynamiq/nodes/agents/orchestrators/linear.py:292-305 | a run logs at most `1 + max_loops * n` manager calls and `n` worker calls for `n` planned tasks, and exactly `n` worker calls when it answers; the summary request is not counted |
| Scenario.NamingDispatches | dynamiq/nodes/agents/orchestrators/linear.py:198-216 | a successful reply naming a roster index dispatches to that worker |
| Scenario.FirstTryTask | dynamiq/nodes/agents/orchestrators/linear.py:176-242 | a task assigned at the first attempt to a succeeding worker makes one manager and one worker call and records the content |
| Scenario.SingleDependencyContext | dynamiq/nodes/agents/orchestrators/linear.py:159-171 | one recorded dependency gives the header line followed by its block |
| Scenario.TrailingNewlineContext | dynamiq/nodes/agents/orchestrators/linear.py:164-171 | a dependency whose result ends in a newline contributes its block without that newline |
| Scenario.TwoTaskRun | dynamiq/nodes/agents/orchestrators/linear.py:173-253 | two tasks, the second depending on the first, assigned to workers 0 and 1: both results recorded in order, four alternating calls, and the second prompt carries the first task's name and result |
| Scenario.ExecuteTwo | dynamiq/nodes/agents/orchestrators/linear.py:176-253 | a two-task plan runs the first task, then the second unless the first raised |
| Orchestrator.LinearOrchestrator.constructor | dynamiq/nodes/agents/orchestrators/linear.py:57-60 | a new orchestrator has no results, no run dependency, and its roster text rendered |
| Orchestrator.LinearOrchestrator.ResetRunState | dynamiq/nodes/agents/orchestrators/linear.py:77-80 | results, run dependency and history are emptied, and nothing else changes |
| Orchestrator.LinearOrchestrator.CallManager | dynamiq/nodes/agents/orchestrators/linear.py:185-196 | a manager call consumes one reply, logs the call with the current `run_depends` and sets `_run_depends` to the manager |
| Orchestrator.LinearOrchestrator.CallAgent | dynamiq/nodes/agents/orchestrators/linear.py:222-228 | a worker call does the same for that worker |
| Orchestrator.LinearOrchestrator.GetDependencyOutputs | dynamiq/nodes/agents/orchestrators/linear.py:159-171 | the loop builds exactly the dependency context, and changes nothing |
| Orchestrator.LinearOrchestrator.GetTasks | dynamiq/nodes/agents/orchestrators/linear.py:103-129 | makes one planning call and returns the plan, or the error, that the reply gives |
| Orchestrator.LinearOrchestrator.TaskPerLlm | dynamiq/nodes/agents/orchestrators/linear.py:177-181 | the first prompt is the description, the expected output and, if non-empty, the dependency context |
| Orchestrator.LinearOrchestrator.Dispatch | dynamiq/nodes/agents/orchestrators/linear.py:216-239 | runs the chosen worker, raises on its failure, otherwise records its content |
| Orchestrator.LinearOrchestrator.AssignTask | dynamiq/nodes/agents/orchestrators/linear.py:183-253 | the retry loop changes the state and raises exactly as the retry loop of the engine says |
| Orchestrator.LinearOrchestrator.RunTasks | dynamiq/nodes/agents/orchestrators/linear.py:173-253 | the loop over the plan changes the state and raises exactly as the engine says |
| Orchestrator.LinearOrchestrator.RunFlow | dynamiq/nodes/agents/orchestrators/linear.py:292-305 | plan, run, answer: the state and the answer are those of the engine's whole run, and the history is untouched |

## Left out

- Task validation by pydantic (`TypeAdapter(list[Task]).validate_json`) is the parameter `validator`, from payload text to tasks or an error message. JSON decoding is not modelled.
- `get_final_result` is inherited from the base orchestrator, which is not part of this model. It is the parameter `summarize`, from the summary request to the manager's reply text.
- The manager and the workers are scripts of replies. Their own behaviour, `RunnableConfig` and `**kwargs` are not modelled.
- `NodeDependency(node=...).to_dict()` is reduced to the node it names.
- The Python `str()` of a manager output and of a mapping-valued `Task.output` is an opaque string carried with the value.
- Exception messages are not built character by character. An error records its kind, the task id, the worker index and the quoted reply.
- Logging (`logger.*`), `to_dict`, `to_dict_exclude_params`, `init_components`, `setup_streaming` and the class attributes `name` and `group` have no effect on what is modelled.
- The `try/except AttributeError` around `replace` and `strip` (lines 141-156) is not modelled. The payload is always a string here, so neither handler can run.
- The `if result` filter of line 267 is not modelled. Every recorded entry is a non-empty dict, so the filter always holds. The same goes for the default of `.get("result", "")` at line 275.
- `int()` and `\d` accept only ASCII digits here; Python also accepts other Unicode decimal digits. The 4300-digit limit of `int()` is not modelled.
- The `"result"` of a manager reply is text or missing. A reply whose `"result"` is already a number, or is some other non-string, is not modelled.
- The `"content"` of a worker reply is text. Lines 238 and 275 store and return it as it is, so a non-string content is not modelled; only lines 169 and 267 would apply `str()` to it.
- `_chat_history` is an opaque list of strings that this class only empties and hands to the summariser.
- `agents_descriptions` is a cached property. The roster never changes, so the model renders it once, in the constructor.
- Orchestrator.LinearOrchestrator.RunTasks: requires `max_loops >= 1` (the class invariant `Valid`). With `max_loops = 0`, line 252 reads `manager_result` before any assignment, a `NameError` this model does not represent.
- Orchestrator.LinearOrchestrator.RunFlow: does not reset the run state itself, as `run_flow` does not. The caller in the base orchestrator that resets it is not part of this model.
- EngineLemmas.FlowBudget: the summary request of `get_final_result` (line 279) is a parameter, not a logged call, so the budget counts only the planning, assignment and worker calls.
- Engine.PlanOutcome: a failed planning reply is quoted by `str()` of its whole output, where line 118 quotes only its `"content"`. Exception messages are not modelled character by character, and the error keeps its kind.
