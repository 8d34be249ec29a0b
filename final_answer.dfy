/**
 * `generate_final_answer`: the answer of a finished run, built from the recorded
 * results in one of three ways chosen by the two summarizer flags.
 */
module FinalAnswer {

  import opened Wrappers
  import opened Text
  import opened Types
  import OD = OrderedDict

  const FinalOpen: string := "<final_answer>"
  const FinalClose: string := "</final_answer>"

  /** `use_summarizer` and `summarize_all_answers`. */
  datatype Settings = Settings(useSummarizer: bool, summarizeAllAnswers: bool)

  /** The input handed to `get_final_result`. */
  datatype SummaryRequest = SummaryRequest(inputTask: string, chatHistory: seq<string>, tasksOutputs: string)

  /** `get_final_result`, which the orchestrator inherits: the manager's summarising reply. */
  type Summarizer = SummaryRequest -> string

  function Blocks(entries: seq<Entry>): (r: seq<string>)
    ensures |r| == |entries|
    ensures forall i :: 0 <= i < |entries| ==> r[i] == entries[i].Block()
  {
    seq(|entries|, i requires 0 <= i < |entries| => entries[i].Block())
  }

  /** `tasks_outputs`: one block per recorded result, in insertion order, separated by a blank line. */
  function TasksOutputs(results: OD.Dict<Entry>): string
    requires OD.Valid(results)
  {
    Join("\n\n", Blocks(OD.Values(results)))
  }

  /** `max(keys, default=None)`. */
  function MaxKey(keys: seq<int>): (r: Option<int>)
    ensures r.None? <==> keys == []
    ensures r.Some? ==> r.value in keys && forall k :: k in keys ==> k <= r.value
  {
    if keys == [] then None
    else
      var last := keys[|keys| - 1];
      var init := keys[..|keys| - 1];
      assert keys == init + [last];
      match MaxKey(init)
      case None => Some(last)
      case Some(m) => Some(if last > m then last else m)
  }

  /** Whether the answer comes from the summarising call: always when asked to summarise all, else only when no result was recorded. */
  predicate Summarizes(settings: Settings, results: OD.Dict<Entry>) {
    settings.useSummarizer && (settings.summarizeAllAnswers || results.keys == [])
  }

  /**
   * `generate_final_answer`. Only the summarising mode can fail, and only for want
   * of `<final_answer>` tags in the summary.
   */
  function GenerateFinalAnswer(results: OD.Dict<Entry>, settings: Settings, inputTask: string,
                               history: seq<string>, summarize: Summarizer): (r: Result<string, Error>)
    requires OD.Valid(results)
    ensures r.Failure? ==> r.error == FinalAnswerTagsMissing && Summarizes(settings, results)
  {
    var outputs := TasksOutputs(results);
    if !settings.useSummarizer then Success(outputs)
    else
      var last := MaxKey(results.keys);
      if !settings.summarizeAllAnswers && last.Some? then Success(results.entries[last.value].result)
      else
        match SearchTag(summarize(SummaryRequest(inputTask, history, outputs)), FinalOpen, FinalClose)
        case None => Failure(FinalAnswerTagsMissing)
        case Some(c) => Success(Strip(c))
  }

  /** Recording a new task appends its block after a blank line. */
  lemma TasksOutputsPutNew(d: OD.Dict<Entry>, k: int, e: Entry)
    requires OD.Valid(d) && k !in d.entries
    ensures TasksOutputs(OD.Put(d, k, e))
         == (if d.keys == [] then e.Block() else TasksOutputs(d) + "\n\n" + e.Block())
  {
    OD.ValuesPutNew(d, k, e);
    var vs := OD.Values(d);
    assert Blocks(vs + [e]) == Blocks(vs) + [e.Block()];
    assert |Blocks(vs + [e])| == |vs| + 1;
    if d.keys == [] {
      assert Blocks(vs + [e]) == [e.Block()];
    } else {
      assert Blocks(vs + [e])[..|vs|] == Blocks(vs);
    }
  }

  /** Recording a task again replaces its block where it stood. */
  lemma TasksOutputsPutExisting(d: OD.Dict<Entry>, i: nat, e: Entry)
    requires OD.Valid(d) && i < |d.keys|
    ensures TasksOutputs(OD.Put(d, d.keys[i], e)) == Join("\n\n", Blocks(OD.Values(d))[i := e.Block()])
  {
    OD.ValuesPutExisting(d, i, e);
    assert Blocks(OD.Values(d)[i := e]) == Blocks(OD.Values(d))[i := e.Block()];
  }

  /**
   * With the summarizer on and summarize-all off, a run that recorded something
   * answers with the result under the highest task id, whatever the summarizer
   * would have said: it is not consulted.
   */
  lemma LastResultMode(results: OD.Dict<Entry>, settings: Settings, inputTask: string,
                       history: seq<string>, summarize: Summarizer, other: Summarizer)
    requires OD.Valid(results) && results.keys != []
    requires settings.useSummarizer && !settings.summarizeAllAnswers
    ensures exists k :: (k in results.keys && (forall j :: j in results.keys ==> j <= k)
      && GenerateFinalAnswer(results, settings, inputTask, history, summarize) == Success(results.entries[k].result))
    ensures GenerateFinalAnswer(results, settings, inputTask, history, summarize)
         == GenerateFinalAnswer(results, settings, inputTask, history, other)
  {
    var k := MaxKey(results.keys).value;
    assert k in results.keys && (forall j :: j in results.keys ==> j <= k);
  }

  /** In the summarising mode the answer is the trimmed text between the first pair of final-answer tags. */
  lemma SummaryRoundTrip(results: OD.Dict<Entry>, settings: Settings, inputTask: string, history: seq<string>,
                         summarize: Summarizer, pre: string, ws1: string, body: string, ws2: string, post: string)
    requires OD.Valid(results) && Summarizes(settings, results)
    requires summarize(SummaryRequest(inputTask, history, TasksOutputs(results)))
          == pre + FinalOpen + ws1 + body + ws2 + FinalClose + post
    requires !Occurs(pre, FinalOpen) && !Occurs(ws1 + body + ws2, FinalClose)
    requires AllSpace(ws1) && AllSpace(ws2)
    requires body == [] || (!IsSpace(body[0]) && !IsSpace(body[|body| - 1]))
    ensures GenerateFinalAnswer(results, settings, inputTask, history, summarize) == Success(body)
  {
    assert pre + FinalOpen + ws1 + body + ws2 + FinalClose + post
        == pre + FinalOpen + (ws1 + body + ws2) + FinalClose + post;
    SearchTagRoundTrip(pre, FinalOpen, ws1 + body + ws2, FinalClose, post);
    StripExact(ws1, body, ws2);
  }

  /** In the summarising mode the answer fails exactly when the summary holds no tag pair. */
  lemma SummaryTagsMissing(results: OD.Dict<Entry>, settings: Settings, inputTask: string,
                           history: seq<string>, summarize: Summarizer)
    requires OD.Valid(results) && Summarizes(settings, results)
    ensures GenerateFinalAnswer(results, settings, inputTask, history, summarize).Failure?
        <==> !HasTagPair(summarize(SummaryRequest(inputTask, history, TasksOutputs(results))), FinalOpen, FinalClose)
  {
    SearchTagFails(summarize(SummaryRequest(inputTask, history, TasksOutputs(results))), FinalOpen, FinalClose);
  }

  /** The results `{1: {"name": "A", "result": "x"}, 2: {"name": "B", "result": "y"}}`, recorded in that order. */
  function TwoResults(): (d: OD.Dict<Entry>)
    ensures OD.Valid(d) && d.keys == [1, 2]
  {
    OD.Put(OD.Put(OD.Empty(), 1, Entry("A", "x")), 2, Entry("B", "y"))
  }

  /** Without the summarizer the two blocks come in insertion order, separated by a blank line. */
  lemma ConcatenationExample(summarizeAll: bool, inputTask: string, history: seq<string>, summarize: Summarizer)
    ensures GenerateFinalAnswer(TwoResults(), Settings(false, summarizeAll), inputTask, history, summarize)
         == Success(Entry("A", "x").Block() + "\n\n" + Entry("B", "y").Block())
  {
    var d0: OD.Dict<Entry> := OD.Empty();
    var d1 := OD.Put(d0, 1, Entry("A", "x"));
    TasksOutputsPutNew(d0, 1, Entry("A", "x"));
    TasksOutputsPutNew(d1, 2, Entry("B", "y"));
    assert TasksOutputs(d1) == Entry("A", "x").Block();
  }

  /** With the summarizer on and summarize-all off the answer is `"y"`, the result of task 2. */
  lemma LastResultExample(inputTask: string, history: seq<string>, summarize: Summarizer)
    ensures GenerateFinalAnswer(TwoResults(), Settings(true, false), inputTask, history, summarize) == Success("y")
  {
    var keys := TwoResults().keys;
    assert keys[..1] == [1] && [1][..0] == [];
    assert MaxKey([1]) == Some(1);
    assert MaxKey(keys) == Some(2);
    assert TwoResults().entries[2] == Entry("B", "y");
  }
}
