/**
 * Plan parsing: the text pipeline of `parse_tasks_from_output` that turns the
 * manager's planning reply into the JSON handed to the task validator.
 */
module Plan {

  import opened Wrappers
  import opened Text
  import opened Types

  const OutputOpen: string := "<output>"
  const OutputClose: string := "</output>"
  const Fence: string := "```"
  const JsonWord: string := "json"

  /** The validation of JSON text as `list[Task]`: the tasks, or the validation error's message. */
  type Validator = string -> Result<seq<Task>, string>

  /** `.strip()`, then `.replace("```", "")`, then `.replace("json", "")`, then `.strip()` again. */
  function CleanPayload(c: string): string {
    Strip(DeleteAll(DeleteAll(Strip(c), Fence), JsonWord))
  }

  /** A validation error, raised as it is. */
  function Validate(validate: Validator, payload: string): Result<seq<Task>, Error> {
    match validate(payload)
    case Success(tasks) => Success(tasks)
    case Failure(m) => Failure(PlanInvalid(m))
  }

  /**
   * `parse_tasks_from_output`: the content of the first `<output>...</output>` pair,
   * cleaned and validated. It fails for want of tags exactly when no opening tag
   * is followed by a closing tag.
   */
  function ParseTasksFromOutput(output: string, validate: Validator): (r: Result<seq<Task>, Error>)
    ensures r == Failure(OutputTagsMissing) <==> !HasTagPair(output, OutputOpen, OutputClose)
  {
    SearchTagFails(output, OutputOpen, OutputClose);
    match SearchTag(output, OutputOpen, OutputClose)
    case None => Failure(OutputTagsMissing)
    case Some(c) => Validate(validate, CleanPayload(c))
  }

  lemma SpaceIsNotTagHead(s: string)
    requires AllSpace(s)
    ensures forall k :: 0 <= k < |s| ==> s[k] != '<'
  {
  }

  /** Whitespace never completes a closing tag. */
  lemma NoCloseInSpace(s: string)
    requires AllSpace(s)
    ensures !Occurs(s, OutputClose)
    ensures s == [] || s[0] !in OutputClose
  {
    SpaceIsNotTagHead(s);
    NoOccurrencePrepend(s, [], OutputClose);
    assert s + [] == s;
  }

  /**
   * A reply that wraps a JSON payload in output tags, with any whitespace inside
   * the tags, is parsed as the validator reads that payload, when no `<output>`
   * comes before the tags and the payload holds no `</output>`, no fence marker
   * and no `json`, and has no whitespace at its ends.
   */
  lemma ParseRoundTrip(pre: string, ws1: string, p: string, ws2: string, post: string, validate: Validator)
    requires !Occurs(pre, OutputOpen)
    requires AllSpace(ws1) && AllSpace(ws2)
    requires !Occurs(p, OutputClose) && !Occurs(p, Fence) && !Occurs(p, JsonWord)
    requires p == [] || (!IsSpace(p[0]) && !IsSpace(p[|p| - 1]))
    ensures ParseTasksFromOutput(pre + OutputOpen + ws1 + p + ws2 + OutputClose + post, validate)
         == Validate(validate, p)
  {
    var body := ws1 + p + ws2;
    NoCloseInSpace(ws2);
    NoOccurrenceAppend(p, ws2, OutputClose);
    SpaceIsNotTagHead(ws1);
    NoOccurrencePrepend(ws1, p + ws2, OutputClose);
    assert ws1 + (p + ws2) == body;
    assert pre + OutputOpen + ws1 + p + ws2 + OutputClose + post == pre + OutputOpen + body + OutputClose + post;
    SearchTagRoundTrip(pre, OutputOpen, body, OutputClose, post);
    StripExact(ws1, p, ws2);
    DeleteAllAbsent(p, Fence);
    DeleteAllAbsent(p, JsonWord);
    StripTrimmed(p);
  }

  /** Text in which the pattern's first character never appears is left as it is. */
  lemma {:induction false} DeleteAllNoHead(s: string, p: string)
    requires |p| > 0
    requires forall k :: 0 <= k < |s| ==> s[k] != p[0]
    ensures DeleteAll(s, p) == s
    decreases |s|
  {
    if |s| > 0 {
      assert !StartsWith(s, p) by {
        assert s[0] != p[0];
      }
      DeleteAllNoHead(s[1..], p);
      assert s == [s[0]] + s[1..];
    }
  }

  /** One occurrence between two stretches free of its first character: only it is deleted. */
  lemma {:induction false} DeleteAllMiddle(a: string, p: string, b: string)
    requires |p| > 0
    requires forall k :: 0 <= k < |a| ==> a[k] != p[0]
    requires forall k :: 0 <= k < |b| ==> b[k] != p[0]
    ensures DeleteAll(a + p + b, p) == a + b
    decreases |a|
  {
    var s := a + p + b;
    if |a| == 0 {
      assert s == p + b;
      assert s[..|p|] == p;
      assert s[|p|..] == b;
      DeleteAllNoHead(b, p);
    } else {
      assert s[0] == a[0] != p[0];
      assert !StartsWith(s, p);
      assert s[1..] == a[1..] + p + b;
      DeleteAllMiddle(a[1..], p, b);
      assert a + b == [a[0]] + (a[1..] + b);
    }
  }

  /** Deleting the fence markers around a payload that holds none leaves the language tag and two newlines. */
  lemma DeleteFence(p: string)
    requires !Occurs(p, Fence)
    ensures DeleteAll("```json\n" + p + "\n```", Fence) == "json\n" + p + "\n"
  {
    var rest := p + ['\n'] + "```";
    FenceSplit(p);
    DeleteFenceLead();
    DeleteFenceTail(p);
    DeleteAllSplit("```json", '\n', rest, Fence);
    assert "json" + ['\n'] + (p + ['\n']) == "json\n" + p + "\n";
  }

  lemma FenceSplit(p: string)
    ensures "```json\n" + p + "\n```" == "```json" + ['\n'] + (p + ['\n'] + "```")
  {
  }

  lemma DeleteFenceLead()
    ensures DeleteAll("```json", Fence) == "json"
  {
    DeleteAllMiddle([], Fence, "json");
    assert "```json" == [] + Fence + "json";
  }

  lemma DeleteFenceTail(p: string)
    requires !Occurs(p, Fence)
    ensures DeleteAll(p + ['\n'] + "```", Fence) == p + ['\n']
  {
    DeleteAllSplit(p, '\n', "```", Fence);
    DeleteAllAbsent(p, Fence);
    DeleteAllMiddle([], Fence, []);
    assert "```" == [] + Fence + [];
  }

  lemma JoinedEnds(a: string, m: string, b: string)
    requires a != [] && b != []
    ensures (a + m + b)[0] == a[0] && (a + m + b)[|a + m + b| - 1] == b[|b| - 1]
    ensures (a + b)[0] == a[0] && (a + b)[|a + b| - 1] == b[|b| - 1]
  {
  }

  lemma NoFenceAround(a: string, b: string)
    requires forall k :: 0 <= k < |a| ==> a[k] != '`'
    requires forall k :: 0 <= k < |b| ==> b[k] != '`'
    ensures DeleteAll(a + JsonWord + b, Fence) == a + JsonWord + b
  {
    assert forall k :: 0 <= k < |JsonWord| ==> JsonWord[k] != '`';
    NoCharInAppend(a, JsonWord, '`');
    NoCharInAppend(a + JsonWord, b, '`');
    DeleteAllNoHead(a + JsonWord + b, Fence);
  }

  lemma NoCharInAppend(x: string, y: string, c: char)
    requires forall k :: 0 <= k < |x| ==> x[k] != c
    requires forall k :: 0 <= k < |y| ==> y[k] != c
    ensures forall k :: 0 <= k < |x + y| ==> (x + y)[k] != c
  {
  }

  /** Deleting the language tag then leaves the payload between two newlines. */
  lemma DeleteLanguageTag(p: string)
    requires !Occurs(p, JsonWord)
    ensures DeleteAll("json\n" + p + "\n", JsonWord) == "\n" + p + "\n"
  {
    assert "json\n" + p + "\n" == "json" + ['\n'] + (p + ['\n'] + []);
    DeleteAllSplit("json", '\n', p + ['\n'] + [], JsonWord);
    DeleteTagTail(p);
    DeleteTagAlone();
    assert [] + ['\n'] + (p + ['\n']) == "\n" + p + "\n";
  }

  lemma DeleteTagTail(p: string)
    requires !Occurs(p, JsonWord)
    ensures DeleteAll(p + ['\n'] + [], JsonWord) == p + ['\n']
  {
    DeleteAllSplit(p, '\n', [], JsonWord);
    DeleteAllAbsent(p, JsonWord);
  }

  lemma DeleteTagAlone()
    ensures DeleteAll("json", JsonWord) == []
  {
    DeleteAllMiddle([], JsonWord, []);
    assert "json" == [] + JsonWord + [];
  }

  /** A fenced payload without a closing tag, between whitespace, holds no closing tag. */
  lemma NoCloseInFence(ws1: string, p: string, ws2: string)
    requires AllSpace(ws1) && AllSpace(ws2)
    requires !Occurs(p, OutputClose)
    ensures !Occurs(ws1 + "```json\n" + p + "\n```" + ws2, OutputClose)
  {
    var head := "```json\n";
    var tail := "\n```";
    NoCloseInSpace(ws2);
    NoOccurrencePrepend(tail, ws2, OutputClose);
    NoOccurrenceAppend(p, tail + ws2, OutputClose);
    SpaceIsNotTagHead(ws1);
    NoOccurrencePrepend(ws1 + head, p + (tail + ws2), OutputClose);
    assert (ws1 + head) + (p + (tail + ws2)) == ws1 + head + p + tail + ws2;
  }

  /**
   * The same with the payload inside a Markdown code fence tagged `json`:
   * both the fence markers and the language tag are deleted.
   */
  lemma ParseFencedRoundTrip(pre: string, ws1: string, p: string, ws2: string, post: string, validate: Validator)
    requires !Occurs(pre, OutputOpen)
    requires AllSpace(ws1) && AllSpace(ws2)
    requires !Occurs(p, OutputClose) && !Occurs(p, Fence) && !Occurs(p, JsonWord)
    requires p == [] || (!IsSpace(p[0]) && !IsSpace(p[|p| - 1]))
    ensures ParseTasksFromOutput(pre + OutputOpen + ws1 + "```json\n" + p + "\n```" + ws2 + OutputClose + post, validate)
         == Validate(validate, p)
  {
    var fenced := "```json\n" + p + "\n```";
    var body := ws1 + fenced + ws2;
    NoCloseInFence(ws1, p, ws2);
    assert body == ws1 + "```json\n" + p + "\n```" + ws2;
    assert pre + OutputOpen + ws1 + "```json\n" + p + "\n```" + ws2 + OutputClose + post
        == pre + OutputOpen + body + OutputClose + post;
    SearchTagRoundTrip(pre, OutputOpen, body, OutputClose, post);
    assert fenced[0] == '`' && fenced[|fenced| - 1] == '`';
    StripExact(ws1, fenced, ws2);
    DeleteFence(p);
    DeleteLanguageTag(p);
    StripExact("\n", p, "\n");
  }

  /**
   * Every `json` is deleted, also one inside the task list itself: a description
   * that says `json dump` reaches the validator as ` dump`.
   */
  lemma CleanPayloadDropsJsonWord(a: string, b: string)
    requires a != [] && !IsSpace(a[0]) && b != [] && !IsSpace(b[|b| - 1])
    requires forall k :: 0 <= k < |a| ==> a[k] != '`' && a[k] != 'j'
    requires forall k :: 0 <= k < |b| ==> b[k] != '`' && b[k] != 'j'
    ensures CleanPayload(a + JsonWord + b) == a + b
  {
    var s := a + JsonWord + b;
    JoinedEnds(a, JsonWord, b);
    StripTrimmed(s);
    NoFenceAround(a, b);
    DeleteAllMiddle(a, JsonWord, b);
    StripTrimmed(a + b);
  }
}
