/**
 * The worker roster: how `agents_descriptions` renders it for the manager, and
 * how the manager's assignment reply is read back as a roster index.
 */
module Roster {

  import opened Wrappers
  import opened Text

  /** `f"{i}. {agent.name}"`. */
  function RosterLine(i: nat, name: string): string {
    NatToString(i) + ". " + name
  }

  function RosterLines(names: seq<string>): (r: seq<string>)
    ensures |r| == |names|
    ensures forall i :: 0 <= i < |names| ==> r[i] == RosterLine(i, names[i])
  {
    seq(|names|, i requires 0 <= i < |names| => RosterLine(i, names[i]))
  }

  /** `agents_descriptions`: one numbered line per worker, nothing for an empty roster. */
  function AgentsDescriptions(names: seq<string>): (r: string)
    ensures r == "" <==> names == []
  {
    if names == [] then "" else Join("\n", RosterLines(names))
  }

  /** Adding a worker adds one line, numbered with its position, after the others. */
  lemma DescribeSnoc(names: seq<string>, n: string)
    ensures AgentsDescriptions(names + [n])
         == (if names == [] then "" else AgentsDescriptions(names) + "\n") + RosterLine(|names|, n)
  {
    var lines := RosterLines(names + [n]);
    assert lines[..|names|] == RosterLines(names);
    if names == [] {
      assert lines == [RosterLine(0, n)];
    }
  }

  /**
   * The index read from the manager's `"result"`: `int(result)`; when that raises,
   * the leading digits; when there are none, `-1`. A missing `"result"` gives the
   * default `-1`.
   */
  function AgentIndex(result: Option<string>): int {
    match result
    case None => -1
    case Some(s) =>
      match PyInt(s)
      case Some(v) => v
      case None =>
        match LeadingInt(s)
        case Some(v) => v
        case None => -1
  }

  /** A bare index, with any whitespace `int()` skips around it, is read by `int()`. */
  lemma AgentIndexOfNumeral(a: string, n: nat, b: string)
    requires AllIntSpace(a) && AllIntSpace(b)
    ensures AgentIndex(Some(a + NatToString(n) + b)) == n
  {
    PyIntOfNumeral(a, n, b);
  }

  /** An index followed by prose is read by the leading-digits fallback. */
  lemma AgentIndexOfNumeralPrefix(n: nat, tail: string)
    requires tail == [] || (!IsDigit(tail[0]) && tail[0] != '_')
    ensures AgentIndex(Some(NatToString(n) + tail)) == n
  {
    PyIntOfNumeralPrefix(n, tail);
    LeadingIntOfNumeral(n, tail);
  }

  /** A negative number is read as it is, and so lies outside every roster. */
  lemma AgentIndexOfNegative(n: nat)
    ensures AgentIndex(Some("-" + NatToString(n))) == -(n as int)
  {
    PyIntOfNegative(n);
  }

  /**
   * An index after one of the separators U+001C to U+001F names no worker:
   * `int()` rejects the text and the leading-digits pattern does not match.
   */
  lemma AgentIndexAfterSeparator(c: char, n: nat)
    requires '\U{1c}' <= c <= '\U{1f}'
    ensures AgentIndex(Some([c] + NatToString(n))) == -1
  {
    PyIntRejectsSeparator(n, c);
    assert DigitPrefix([c] + NatToString(n)) == [];
  }

  /** A character with which neither `int()` nor the leading-digits pattern can start. */
  predicate NotNumeralHead(c: char) {
    !IsDigit(c) && !IsIntSpace(c) && c != '+' && c != '-'
  }

  /** A reply that does not open with a digit, a sign or whitespace `int()` skips gives `-1`, and so does a missing one. */
  lemma AgentIndexRejects(result: Option<string>)
    requires result.Some? ==> result.value == [] || NotNumeralHead(result.value[0])
    ensures AgentIndex(result) == -1
  {
    if result.Some? && result.value != [] {
      var s := result.value;
      assert IntLStrip(s) == s;
      IntRStripPrefix(s);
      assert IntStrip(s) == [] || IntStrip(s)[0] == s[0];
      assert DigitPrefix(s) == [];
    }
  }

  /** A bare numeral names that worker. */
  lemma AgentIndexOfDigit()
    ensures AgentIndex(Some("2")) == 2
  {
    assert NatToString(2) == "2";
    AgentIndexOfNumeral([], 2, []);
    assert [] + "2" + [] == "2";
  }

  /** A numeral followed by the worker's name: `int` fails, the leading digits are taken. */
  lemma AgentIndexOfExplained()
    ensures AgentIndex(Some("2 (Writer)")) == 2
  {
    assert NatToString(2) == "2";
    AgentIndexOfNumeralPrefix(2, " (Writer)");
    assert "2" + " (Writer)" == "2 (Writer)";
  }

  /** A word: no index. */
  lemma AgentIndexOfWord()
    ensures AgentIndex(Some("abc")) == -1
  {
    AgentIndexRejects(Some("abc"));
  }

  /** Two workers are rendered as two numbered lines. */
  lemma DescribeExample()
    ensures AgentsDescriptions(["Coder", "Writer"]) == "0. Coder\n1. Writer"
  {
    assert NatToString(0) == "0" && NatToString(1) == "1";
    DescribeSnoc(["Coder"], "Writer");
    DescribeSnoc([], "Coder");
    assert [] + ["Coder"] == ["Coder"];
    assert ["Coder"] + ["Writer"] == ["Coder", "Writer"];
  }
}
