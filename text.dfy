/**
 * The Python string operations the orchestrator relies on, written out as
 * functions: `str.strip()`, `str.replace(p, "")`, `"sep".join(...)`, `str(n)`
 * for a natural number, `int(s)` for a string, and the three regular
 * expressions of the orchestrator (`<output>(.*?)</output>`,
 * `<final_answer>(.*?)</final_answer>` with DOTALL, and `^\d+`).
 */
module Text {
  import opened Wrappers

  // ---------------------------------------------------------------------
  // Whitespace and strip
  // ---------------------------------------------------------------------

  /** Python's `str.isspace()` on one character: the set `strip()` skips. */
  predicate IsSpace(c: char) {
    || c == ' '
    || '\t' <= c <= '\r'
    || '\U{1c}' <= c <= '\U{1f}'
    || c == '\U{85}' || c == '\U{a0}' || c == '\U{1680}'
    || '\U{2000}' <= c <= '\U{200a}'
    || c == '\U{2028}' || c == '\U{2029}' || c == '\U{202f}' || c == '\U{205f}' || c == '\U{3000}'
  }

  predicate AllSpace(s: string) {
    forall i :: 0 <= i < |s| ==> IsSpace(s[i])
  }

  /** `s.lstrip()`: the suffix left after dropping the leading whitespace. */
  function LStrip(s: string): (r: string)
    ensures |r| <= |s|
    ensures r == [] || !IsSpace(r[0])
  {
    if |s| > 0 && IsSpace(s[0]) then LStrip(s[1..]) else s
  }

  /** What `lstrip` drops is whitespace, and what it keeps is a suffix. */
  lemma {:induction false} LStripSuffix(s: string)
    ensures LStrip(s) == s[|s| - |LStrip(s)|..]
    ensures AllSpace(s[..|s| - |LStrip(s)|])
    decreases |s|
  {
    if |s| > 0 && IsSpace(s[0]) {
      LStripSuffix(s[1..]);
      var m := |s| - |LStrip(s)|;
      assert s[1..][m - 1..] == s[m..];
      assert forall i :: 1 <= i < m ==> s[..m][i] == s[1..][..m - 1][i - 1];
    }
  }

  /** `s.rstrip()`: the prefix left after dropping the trailing whitespace. */
  function RStrip(s: string): (r: string)
    ensures |r| <= |s|
    ensures r == [] || !IsSpace(r[|r| - 1])
  {
    if |s| > 0 && IsSpace(s[|s| - 1]) then RStrip(s[..|s| - 1]) else s
  }

  /** What `rstrip` drops is whitespace, and what it keeps is a prefix. */
  lemma {:induction false} RStripPrefix(s: string)
    ensures RStrip(s) == s[..|RStrip(s)|]
    ensures AllSpace(s[|RStrip(s)|..])
    decreases |s|
  {
    if |s| > 0 && IsSpace(s[|s| - 1]) {
      RStripPrefix(s[..|s| - 1]);
      var m := |RStrip(s)|;
      assert s[..|s| - 1][..m] == s[..m];
      assert forall j :: 0 <= j < |s| - 1 - m ==> s[m..][j] == s[..|s| - 1][m..][j];
    }
  }

  /** `s.strip()`. */
  function Strip(s: string): (r: string)
    ensures |r| <= |s|
    ensures r == [] || (!IsSpace(r[0]) && !IsSpace(r[|r| - 1]))
  {
    var l := LStrip(s);
    RStripPrefix(l);
    RStrip(l)
  }

  lemma {:induction false} LStripSkip(a: string, t: string)
    requires AllSpace(a)
    requires t == [] || !IsSpace(t[0])
    ensures LStrip(a + t) == t
    decreases |a|
  {
    if |a| > 0 {
      assert (a + t)[1..] == a[1..] + t;
      LStripSkip(a[1..], t);
    } else {
      assert a + t == t;
    }
  }

  lemma {:induction false} RStripSkip(t: string, b: string)
    requires AllSpace(b)
    requires t == [] || !IsSpace(t[|t| - 1])
    ensures RStrip(t + b) == t
    decreases |b|
  {
    if |b| > 0 {
      assert (t + b)[..|t + b| - 1] == t + b[..|b| - 1];
      RStripSkip(t, b[..|b| - 1]);
    } else {
      assert t + b == t;
    }
  }

  /** Trailing whitespace makes no difference to `rstrip`. */
  lemma {:induction false} RStripDropsSpace(x: string, w: string)
    requires AllSpace(w)
    ensures RStrip(x + w) == RStrip(x)
    decreases |w|
  {
    if w == [] {
      assert x + w == x;
    } else {
      assert (x + w)[|x + w| - 1] == w[|w| - 1];
      assert (x + w)[..|x + w| - 1] == x + w[..|w| - 1];
      RStripDropsSpace(x, w[..|w| - 1]);
    }
  }

  /** Strip removes exactly the surrounding whitespace and nothing of the core. */
  lemma StripExact(a: string, m: string, b: string)
    requires AllSpace(a) && AllSpace(b)
    requires m == [] || (!IsSpace(m[0]) && !IsSpace(m[|m| - 1]))
    ensures Strip(a + m + b) == m
  {
    if m == [] {
      assert a + m + b == (a + b) + [];
      assert AllSpace(a + b);
      LStripSkip(a + b, []);
    } else {
      assert a + m + b == a + (m + b);
      LStripSkip(a, m + b);
      RStripSkip(m, b);
    }
  }

  /** Text with no surrounding whitespace is left as it is. */
  lemma StripTrimmed(m: string)
    requires m == [] || (!IsSpace(m[0]) && !IsSpace(m[|m| - 1]))
    ensures Strip(m) == m
  {
    StripExact([], m, []);
    assert [] + m + [] == m;
  }

  /** A string with a non-space character somewhere does not strip to nothing. */
  lemma StripNonEmpty(s: string, k: nat)
    requires k < |s| && !IsSpace(s[k])
    ensures Strip(s) != []
  {
    var l := LStrip(s);
    LStripSuffix(s);
    var m := |s| - |l|;
    assert forall i :: 0 <= i < m ==> s[..m][i] == s[i];
    assert m <= k;
    assert l[k - m] == s[k];
    var r := RStrip(l);
    RStripPrefix(l);
    assert forall i :: |r| <= i < |l| ==> l[|r|..][i - |r|] == l[i];
    assert |r| > k - m;
  }

  /** Trailing whitespace after a non-space character is all `rstrip` touches. */
  lemma {:induction false} RStripAppend(x: string, y: string)
    requires x != [] && !IsSpace(x[|x| - 1])
    ensures RStrip(x + y) == x + RStrip(y)
    decreases |y|
  {
    if |y| == 0 {
      assert x + y == x;
    } else if IsSpace(y[|y| - 1]) {
      assert (x + y)[..|x + y| - 1] == x + y[..|y| - 1];
      RStripAppend(x, y[..|y| - 1]);
    }
  }

  // ---------------------------------------------------------------------
  // Occurrences, search and deletion
  // ---------------------------------------------------------------------

  predicate StartsWith(s: string, p: string) {
    |p| <= |s| && s[..|p|] == p
  }

  predicate OccursAt(s: string, p: string, i: nat) {
    i + |p| <= |s| && s[i..i + |p|] == p
  }

  ghost predicate Occurs(s: string, p: string) {
    exists i: nat :: OccursAt(s, p, i)
  }

  /** The first character of `p` appears nowhere else in `p` (true of every tag the orchestrator searches for). */
  predicate UniqueHead(p: string) {
    |p| > 0 && forall k :: 0 < k < |p| ==> p[k] != p[0]
  }

  /** `s.find(p, from)`, as an option: the leftmost occurrence of `p` at or after `from`. */
  function Find(s: string, p: string, from: nat): (r: Option<nat>)
    ensures r.Some? ==> from <= r.value && OccursAt(s, p, r.value)
    ensures r.Some? ==> forall i: nat :: from <= i < r.value ==> !OccursAt(s, p, i)
    ensures r.None? ==> forall i: nat :: from <= i ==> !OccursAt(s, p, i)
    decreases |s| - from
  {
    if from + |p| > |s| then None
    else if OccursAt(s, p, from) then Some(from)
    else Find(s, p, from + 1)
  }

  /**
   * `re.search(open + "(.*?)" + close, s, re.DOTALL)` followed by `group(1)`:
   * the text between the leftmost `open` and the nearest `close` after it.
   */
  function SearchTag(s: string, open: string, close: string): Option<string> {
    match Find(s, open, 0)
    case None => None
    case Some(i) =>
      match Find(s, close, i + |open|)
      case None => None
      case Some(j) => Some(s[i + |open|..j])
  }

  /** Whether the regular expression `open(.*?)close` (DOTALL) matches somewhere in `s`. */
  ghost predicate HasTagPair(s: string, open: string, close: string) {
    exists i: nat, j: nat :: OccursAt(s, open, i) && i + |open| <= j && OccursAt(s, close, j)
  }

  /** The search fails exactly when no opening tag is followed by a closing tag. */
  lemma SearchTagFails(s: string, open: string, close: string)
    ensures SearchTag(s, open, close).None? <==> !HasTagPair(s, open, close)
  {
    if HasTagPair(s, open, close) {
      var i: nat, j: nat :| OccursAt(s, open, i) && i + |open| <= j && OccursAt(s, close, j);
      var f := Find(s, open, 0);
      assert f.Some?;
      assert f.value <= i;
      assert Find(s, close, f.value + |open|).Some?;
    }
    if SearchTag(s, open, close).Some? {
      var i := Find(s, open, 0).value;
      var j := Find(s, close, i + |open|).value;
      assert OccursAt(s, open, i) && i + |open| <= j && OccursAt(s, close, j);
    }
  }

  /**
   * When the search succeeds it returns the text after the leftmost opening tag
   * up to the nearest closing tag: the non-greedy group of the regular expression.
   */
  lemma SearchTagFound(s: string, open: string, close: string) returns (i: nat, j: nat)
    requires SearchTag(s, open, close).Some?
    ensures OccursAt(s, open, i) && forall k: nat :: k < i ==> !OccursAt(s, open, k)
    ensures i + |open| <= j && OccursAt(s, close, j)
    ensures forall k: nat :: i + |open| <= k < j ==> !OccursAt(s, close, k)
    ensures SearchTag(s, open, close) == Some(s[i + |open|..j])
  {
    i := Find(s, open, 0).value;
    j := Find(s, close, i + |open|).value;
  }

  /** If `p` does not occur in `x` from `from` on, its first occurrence in `x + p + y` from there is at `|x|`. */
  lemma FindFirst(x: string, p: string, y: string, from: nat)
    requires UniqueHead(p) && from <= |x|
    requires forall i: nat :: from <= i ==> !OccursAt(x, p, i)
    ensures Find(x + p + y, p, from) == Some(|x|)
  {
    var s := x + p + y;
    forall i: nat | from <= i < |x|
      ensures !OccursAt(s, p, i)
    {
      assert !OccursAt(x, p, i);
      if i + |p| <= |x| {
        assert s[i..i + |p|] == x[i..i + |p|];
      } else {
        assert s[|x|] == p[0] != p[|x| - i];
      }
    }
    assert s[|x|..|x| + |p|] == p;
    assert OccursAt(s, p, |x|);
  }

  /** A closing tag inside the body would have to start inside it: no occurrence in either part means none across. */
  lemma NoOccurrenceAppend(a: string, b: string, p: string)
    requires UniqueHead(p)
    requires !Occurs(a, p) && !Occurs(b, p)
    requires b == [] || b[0] !in p
    ensures !Occurs(a + b, p)
  {
    var s := a + b;
    forall i: nat
      ensures !OccursAt(s, p, i)
    {
      if i + |p| <= |a| {
        assert !OccursAt(a, p, i);
        assert s[i..i + |p|] == a[i..i + |p|];
      } else if i >= |a| {
        assert !OccursAt(b, p, i - |a|);
        if i + |p| <= |s| {
          assert s[i..i + |p|] == b[i - |a|..i - |a| + |p|];
        }
      } else if i + |p| <= |s| {
        assert p[|a| - i] in p;
        assert s[i..i + |p|][|a| - i] == s[|a|] == b[0];
      }
    }
  }

  /** The characters after which no occurrence can start. */
  lemma NoOccurrencePrepend(a: string, b: string, p: string)
    requires |p| > 0
    requires forall k :: 0 <= k < |a| ==> a[k] != p[0]
    requires !Occurs(b, p)
    ensures !Occurs(a + b, p)
  {
    var s := a + b;
    forall i: nat
      ensures !OccursAt(s, p, i)
    {
      if i < |a| {
        assert s[i] == a[i] != p[0];
      } else {
        assert !OccursAt(b, p, i - |a|);
        if i + |p| <= |s| {
          assert s[i..i + |p|] == b[i - |a|..i - |a| + |p|];
        }
      }
    }
  }

  /**
   * The text between two tags is recovered exactly by the search, when no
   * opening tag comes before them and the text holds no closing tag.
   */
  lemma SearchTagRoundTrip(pre: string, open: string, body: string, close: string, post: string)
    requires UniqueHead(open) && UniqueHead(close)
    requires !Occurs(pre, open) && !Occurs(body, close)
    ensures SearchTag(pre + open + body + close + post, open, close) == Some(body)
  {
    var s := pre + open + body + close + post;
    OpenAfterPre(pre, open, body, close, post);
    CloseAfterBody(pre + open, body, close, post);
    SearchTagAt(s, open, close, |pre|, |pre + open| + |body|);
    BodyBetween(pre + open, body, close, post);
  }

  /** The search for an opening tag absent from the text before it stops at that text's end. */
  lemma OpenAfterPre(pre: string, open: string, body: string, close: string, post: string)
    requires UniqueHead(open) && !Occurs(pre, open)
    ensures Find(pre + open + body + close + post, open, 0) == Some(|pre|)
  {
    assert pre + open + body + close + post == pre + open + (body + close + post);
    FindFirst(pre, open, body + close + post, 0);
  }

  lemma BodyBetween(head: string, body: string, close: string, post: string)
    ensures (head + body + close + post)[|head|..|head| + |body|] == body
  {
    assert head + body + close + post == head + body + (close + post);
  }

  lemma SearchTagAt(s: string, open: string, close: string, i: nat, j: nat)
    requires Find(s, open, 0) == Some(i) && Find(s, close, i + |open|) == Some(j)
    ensures i + |open| <= j <= |s| && SearchTag(s, open, close) == Some(s[i + |open|..j])
  {
  }

  /** Past a head, the search for a closing tag absent from the body stops right after the body. */
  lemma CloseAfterBody(head: string, body: string, close: string, post: string)
    requires UniqueHead(close) && !Occurs(body, close)
    ensures Find(head + body + close + post, close, |head|) == Some(|head| + |body|)
  {
    var x := head + body;
    forall i: nat | |head| <= i
      ensures !OccursAt(x, close, i)
    {
      var k: nat := i - |head|;
      assert !OccursAt(body, close, k);
      if i + |close| <= |x| {
        assert x[|head|..] == body;
        assert x[i..i + |close|] == x[|head|..][k..k + |close|];
      }
    }
    FindFirst(x, close, post, |head|);
  }

  /** `s.replace(p, "")`: deletes the non-overlapping occurrences of `p`, scanning left to right. */
  function DeleteAll(s: string, p: string): (r: string)
    requires |p| > 0
    ensures |r| <= |s|
    decreases |s|
  {
    if |s| == 0 then s
    else if StartsWith(s, p) then DeleteAll(s[|p|..], p)
    else [s[0]] + DeleteAll(s[1..], p)
  }

  /** Text that holds no occurrence of the pattern is left as it is. */
  lemma {:induction false} DeleteAllAbsent(s: string, p: string)
    requires |p| > 0 && !Occurs(s, p)
    ensures DeleteAll(s, p) == s
    decreases |s|
  {
    if |s| > 0 {
      assert !OccursAt(s, p, 0);
      forall i: nat
        ensures !OccursAt(s[1..], p, i)
      {
        assert !OccursAt(s, p, i + 1);
        if i + |p| <= |s| - 1 {
          assert s[1..][i..i + |p|] == s[i + 1..i + 1 + |p|];
        }
      }
      DeleteAllAbsent(s[1..], p);
      assert s == [s[0]] + s[1..];
    }
  }

  /** A character that the pattern does not contain separates the deletion into two independent halves. */
  lemma {:induction false} DeleteAllSplit(x: string, c: char, y: string, p: string)
    requires |p| > 0 && c !in p
    ensures DeleteAll(x + [c] + y, p) == DeleteAll(x, p) + [c] + DeleteAll(y, p)
    decreases |x|
  {
    if |x| == 0 {
      var s := x + [c] + y;
      assert s == [c] + y;
      assert s[0] == c != p[0];
      assert s[1..] == y;
    } else if StartsWith(x, p) {
      DeleteAllSplit(x[|p|..], c, y, p);
      DeleteAllSplitSkip(x, c, y, p);
    } else {
      DeleteAllSplit(x[1..], c, y, p);
      DeleteAllSplitKeep(x, c, y, p);
    }
  }

  lemma DeleteAllSplitSkip(x: string, c: char, y: string, p: string)
    requires |p| > 0 && StartsWith(x, p)
    requires DeleteAll(x[|p|..] + [c] + y, p) == DeleteAll(x[|p|..], p) + [c] + DeleteAll(y, p)
    ensures DeleteAll(x + [c] + y, p) == DeleteAll(x, p) + [c] + DeleteAll(y, p)
  {
    SplitAround(x, c, y, |p|);
    DeleteAllSkip(x + [c] + y, x[|p|..] + [c] + y, p);
    DeleteAllSkip(x, x[|p|..], p);
  }

  lemma DeleteAllSplitKeep(x: string, c: char, y: string, p: string)
    requires |p| > 0 && c !in p
    requires |x| > 0 && !StartsWith(x, p)
    requires DeleteAll(x[1..] + [c] + y, p) == DeleteAll(x[1..], p) + [c] + DeleteAll(y, p)
    ensures DeleteAll(x + [c] + y, p) == DeleteAll(x, p) + [c] + DeleteAll(y, p)
  {
    SplitAround(x, c, y, 1);
    NoMatchAcross(x, c, y, p);
    DeleteAllKeep(x + [c] + y, x[1..] + [c] + y, p);
    DeleteAllKeep(x, x[1..], p);
    ConsAssoc(x[0], DeleteAll(x[1..], p), c, DeleteAll(y, p));
  }

  /** A pattern that does not hold `c` and does not open `x` does not open `x + [c] + y`. */
  lemma NoMatchAcross(x: string, c: char, y: string, p: string)
    requires c !in p && !StartsWith(x, p)
    ensures !StartsWith(x + [c] + y, p)
  {
    var s := x + [c] + y;
    if |p| <= |x| {
      SplitAround(x, c, y, |p|);
    } else {
      assert p[|x|] in p;
      if |p| <= |s| {
        assert s[..|p|][|x|] == c != p[|x|];
      }
    }
  }

  lemma ConsAssoc(h: char, a: string, c: char, b: string)
    ensures [h] + (a + [c] + b) == [h] + a + [c] + b
  {
  }

  /** Cutting `x + [c] + y` inside `x`. */
  lemma SplitAround(x: string, c: char, y: string, n: nat)
    requires n <= |x|
    ensures var s := x + [c] + y; s[..n] == x[..n] && s[n..] == x[n..] + [c] + y
    ensures 0 < |x| ==> (x + [c] + y)[0] == x[0]
  {
  }

  /** Text that opens with the pattern loses it and goes on with the rest. */
  lemma DeleteAllSkip(s: string, rest: string, p: string)
    requires |p| > 0 && StartsWith(s, p) && s[|p|..] == rest
    ensures DeleteAll(s, p) == DeleteAll(rest, p)
  {
  }

  /** Text that does not open with the pattern keeps its first character. */
  lemma DeleteAllKeep(s: string, rest: string, p: string)
    requires |p| > 0 && |s| > 0 && !StartsWith(s, p) && s[1..] == rest
    ensures DeleteAll(s, p) == [s[0]] + DeleteAll(rest, p)
  {
  }

  // ---------------------------------------------------------------------
  // Join
  // ---------------------------------------------------------------------

  /** `sep.join(parts)`. */
  function Join(sep: string, parts: seq<string>): (r: string)
    ensures |parts| > 0 ==> |parts[0]| <= |r| && r[..|parts[0]|] == parts[0]
  {
    if |parts| == 0 then ""
    else if |parts| == 1 then parts[0]
    else Join(sep, parts[..|parts| - 1]) + sep + parts[|parts| - 1]
  }

  /** The joined text ends with the last part. */
  lemma JoinEndsWithLast(sep: string, parts: seq<string>)
    requires |parts| > 0
    ensures var r, p := Join(sep, parts), parts[|parts| - 1];
      |p| <= |r| && r[|r| - |p|..] == p
  {
    if |parts| > 1 {
      var init := Join(sep, parts[..|parts| - 1]);
      assert Join(sep, parts) == (init + sep) + parts[|parts| - 1];
    }
  }

  // ---------------------------------------------------------------------
  // Decimal numerals: str(n), int(s) and the pattern ^\d+
  // ---------------------------------------------------------------------

  predicate IsDigit(c: char) {
    '0' <= c <= '9'
  }

  predicate AllDigits(s: string) {
    forall i :: 0 <= i < |s| ==> IsDigit(s[i])
  }

  function DigitChar(d: nat): (c: char)
    requires d < 10
    ensures IsDigit(c) && c as int - '0' as int == d
  {
    ('0' as int + d) as char
  }

  /** `str(n)` (the `f"{i}"` of the roster) for a natural number. */
  function NatToString(n: nat): (r: string)
    ensures |r| > 0 && AllDigits(r)
  {
    if n < 10 then [DigitChar(n)] else NatToString(n / 10) + [DigitChar(n % 10)]
  }

  /** The value of a base-10 numeral, skipping the `_` separators Python allows. */
  function DecimalValue(s: string): nat {
    if |s| == 0 then 0
    else if IsDigit(s[|s| - 1]) then 10 * DecimalValue(s[..|s| - 1]) + (s[|s| - 1] as int - '0' as int)
    else DecimalValue(s[..|s| - 1])
  }

  /** Reading back the numeral of `n` gives `n`. */
  lemma {:induction false} DecimalRoundTrip(n: nat)
    ensures DecimalValue(NatToString(n)) == n
  {
    var r := NatToString(n);
    if n >= 10 {
      var t := NatToString(n / 10);
      assert r == t + [DigitChar(n % 10)];
      assert r[..|r| - 1] == t;
      DecimalRoundTrip(n / 10);
    }
  }

  /** The digits accepted by base-10 `int()`: ASCII digits, with single `_` between two digits. */
  predicate IsDigitRun(s: string) {
    |s| > 0 && IsDigit(s[0]) && forall i :: 0 <= i < |s| ==> RunChar(s, i)
  }

  /** Position `i` of a digit run holds a digit, or a `_` directly followed by a digit. */
  predicate RunChar(s: string, i: nat)
    requires i < |s|
  {
    IsDigit(s[i]) || (s[i] == '_' && i + 1 < |s| && IsDigit(s[i + 1]))
  }

  /**
   * The whitespace `int()` skips around a number: that of `str.isspace()` except
   * the four ASCII separators U+001C to U+001F. `int()` keeps ASCII characters as
   * they are and skips only the ASCII whitespace among them, while it turns every
   * non-ASCII whitespace character into a space.
   */
  predicate IsIntSpace(c: char) {
    IsSpace(c) && !('\U{1c}' <= c <= '\U{1f}')
  }

  predicate AllIntSpace(s: string) {
    forall i :: 0 <= i < |s| ==> IsIntSpace(s[i])
  }

  /** The leading whitespace `int()` skips, dropped. */
  function IntLStrip(s: string): (r: string)
    ensures |r| <= |s|
    ensures r == [] || !IsIntSpace(r[0])
  {
    if |s| > 0 && IsIntSpace(s[0]) then IntLStrip(s[1..]) else s
  }

  /** The trailing whitespace `int()` skips, dropped. */
  function IntRStrip(s: string): (r: string)
    ensures |r| <= |s|
    ensures r == [] || !IsIntSpace(r[|r| - 1])
  {
    if |s| > 0 && IsIntSpace(s[|s| - 1]) then IntRStrip(s[..|s| - 1]) else s
  }

  /** The text `int()` parses: the input without the whitespace it skips at either end. */
  function IntStrip(s: string): string {
    IntRStrip(IntLStrip(s))
  }

  /**
   * Python's `int(s)` for a string, `None` standing for the `ValueError`:
   * whitespace it skips, an optional sign, a run of digits, whitespace it skips.
   */
  function PyInt(s: string): Option<int> {
    PyNumeral(IntStrip(s))
  }

  /** `int()` of text with no whitespace around it: an optional sign, then a run of digits. */
  function PyNumeral(t: string): Option<int> {
    if |t| > 0 && (t[0] == '+' || t[0] == '-') then
      if IsDigitRun(t[1..]) then
        Some(if t[0] == '-' then -(DecimalValue(t[1..]) as int) else DecimalValue(t[1..]))
      else None
    else if IsDigitRun(t) then Some(DecimalValue(t))
    else None
  }

  /** The longest prefix of ASCII digits: what `^\d+` matches, when it is not empty. */
  function DigitPrefix(s: string): (r: string)
    ensures |r| <= |s| && r == s[..|r|] && AllDigits(r)
    ensures |r| == |s| || !IsDigit(s[|r|])
  {
    if |s| > 0 && IsDigit(s[0]) then [s[0]] + DigitPrefix(s[1..]) else []
  }

  /** `int(re.match(r"^\d+", s).group())`, `None` when the pattern does not match. */
  function LeadingInt(s: string): Option<nat> {
    var d := DigitPrefix(s);
    if |d| == 0 then None else Some(DecimalValue(d))
  }

  lemma {:induction false} IntLStripSkip(a: string, t: string)
    requires AllIntSpace(a)
    requires t == [] || !IsIntSpace(t[0])
    ensures IntLStrip(a + t) == t
    decreases |a|
  {
    if |a| > 0 {
      assert (a + t)[1..] == a[1..] + t;
      IntLStripSkip(a[1..], t);
    } else {
      assert a + t == t;
    }
  }

  lemma {:induction false} IntRStripSkip(t: string, b: string)
    requires AllIntSpace(b)
    requires t == [] || !IsIntSpace(t[|t| - 1])
    ensures IntRStrip(t + b) == t
    decreases |b|
  {
    if |b| > 0 {
      assert (t + b)[..|t + b| - 1] == t + b[..|b| - 1];
      IntRStripSkip(t, b[..|b| - 1]);
    } else {
      assert t + b == t;
    }
  }

  /** What `int()` keeps at the back is a prefix. */
  lemma {:induction false} IntRStripPrefix(s: string)
    ensures IntRStrip(s) == s[..|IntRStrip(s)|]
    decreases |s|
  {
    if |s| > 0 && IsIntSpace(s[|s| - 1]) {
      IntRStripPrefix(s[..|s| - 1]);
      assert s[..|s| - 1][..|IntRStrip(s)|] == s[..|IntRStrip(s)|];
    }
  }

  lemma {:induction false} IntRStripAppend(x: string, y: string)
    requires x != [] && !IsIntSpace(x[|x| - 1])
    ensures IntRStrip(x + y) == x + IntRStrip(y)
    decreases |y|
  {
    if |y| == 0 {
      assert x + y == x;
    } else if IsIntSpace(y[|y| - 1]) {
      assert (x + y)[..|x + y| - 1] == x + y[..|y| - 1];
      IntRStripAppend(x, y[..|y| - 1]);
    }
  }

  /** `int()` parses exactly the core of text it skips whitespace around, when the core has none at its ends. */
  lemma IntStripExact(a: string, m: string, b: string)
    requires AllIntSpace(a) && AllIntSpace(b)
    requires m != [] && !IsIntSpace(m[0]) && !IsIntSpace(m[|m| - 1])
    ensures IntStrip(a + m + b) == m
  {
    assert a + m + b == a + (m + b);
    IntLStripSkip(a, m + b);
    IntRStripSkip(m, b);
  }

  /** `int()` reads a run of digits, with whitespace it skips around it, as its decimal value. */
  lemma PyIntUnsigned(a: string, d: string, b: string)
    requires AllIntSpace(a) && AllIntSpace(b) && IsDigitRun(d)
    ensures PyInt(a + d + b) == Some(DecimalValue(d))
  {
    assert IsDigit(d[|d| - 1]) by {
      assert RunChar(d, |d| - 1);
    }
    IntStripExact(a, d, b);
  }

  /** `int()` reads a minus sign and a run of digits, with whitespace it skips around them, as the negated value. */
  lemma PyIntSigned(a: string, d: string, b: string)
    requires AllIntSpace(a) && AllIntSpace(b) && IsDigitRun(d)
    ensures PyInt(a + ("-" + d) + b) == Some(-(DecimalValue(d) as int))
  {
    var m := "-" + d;
    assert IsDigit(d[|d| - 1]) by {
      assert RunChar(d, |d| - 1);
    }
    assert m[0] == '-' && m[|m| - 1] == d[|d| - 1] && m[1..] == d;
    assert PyNumeral(m) == Some(-(DecimalValue(d) as int));
    IntStripExact(a, m, b);
    assert IntStrip(a + m + b) == m;
  }

  /** `int()` rejects unsigned text with a character that is neither a digit nor `_`. */
  lemma PyIntRejects(s: string, k: nat)
    requires IntStrip(s) != [] && IsDigit(IntStrip(s)[0])
    requires k < |IntStrip(s)| && !IsDigit(IntStrip(s)[k]) && IntStrip(s)[k] != '_'
    ensures PyInt(s) == None
  {
    assert !RunChar(IntStrip(s), k);
  }

  /** `int()` rejects a numeral next to one of the separators U+001C to U+001F, although `strip()` removes them. */
  lemma PyIntRejectsSeparator(n: nat, c: char)
    requires '\U{1c}' <= c <= '\U{1f}'
    ensures PyInt([c] + NatToString(n)) == None && PyInt(NatToString(n) + [c]) == None
    ensures Strip([c] + NatToString(n)) == NatToString(n) == Strip(NatToString(n) + [c])
  {
    var d := NatToString(n);
    SeparatorStripped(d, c);
    SeparatorKept(d, c);
  }

  /** `strip()` removes a separator on either side of a numeral. */
  lemma SeparatorStripped(d: string, c: char)
    requires '\U{1c}' <= c <= '\U{1f}' && d != [] && AllDigits(d)
    ensures Strip([c] + d) == d == Strip(d + [c])
  {
    assert !IsSpace(d[0]) && !IsSpace(d[|d| - 1]);
    assert [c] + d + [] == [c] + d;
    StripExact([c], d, []);
    assert [] + d + [c] == d + [c];
    StripExact([], d, [c]);
  }

  /** `int()` keeps a separator on either side of a numeral, and so rejects it. */
  lemma SeparatorKept(d: string, c: char)
    requires '\U{1c}' <= c <= '\U{1f}' && d != [] && AllDigits(d)
    ensures PyNumeral(IntStrip([c] + d)) == None && PyNumeral(IntStrip(d + [c])) == None
  {
    var front := [c] + d;
    var back := d + [c];
    assert front[0] == c && front[|front| - 1] == d[|d| - 1];
    assert back[0] == d[0] && back[|back| - 1] == c;
    assert [] + front + [] == front;
    IntStripExact([], front, []);
    assert [] + back + [] == back;
    IntStripExact([], back, []);
    assert !RunChar(back, |d|);
  }

  /** `int()` reads back a numeral surrounded by any whitespace it skips. */
  lemma PyIntOfNumeral(a: string, n: nat, b: string)
    requires AllIntSpace(a) && AllIntSpace(b)
    ensures PyInt(a + NatToString(n) + b) == Some(n)
  {
    assert IsDigitRun(NatToString(n));
    DecimalRoundTrip(n);
    PyIntUnsigned(a, NatToString(n), b);
  }

  /** `int()` reads a leading minus sign. */
  lemma PyIntOfNegative(n: nat)
    ensures PyInt("-" + NatToString(n)) == Some(-(n as int))
  {
    var d := NatToString(n);
    DigitsAreRun(d);
    DecimalRoundTrip(n);
    PyIntMinus(d);
  }

  /** A minus sign and a run of digits, alone. */
  lemma PyIntMinus(d: string)
    requires IsDigitRun(d)
    ensures PyInt("-" + d) == Some(-(DecimalValue(d) as int))
  {
    assert [] + ("-" + d) + [] == "-" + d;
    PyIntSigned([], d, []);
  }

  /** ASCII digits alone are a run of digits. */
  lemma DigitsAreRun(d: string)
    requires d != [] && AllDigits(d)
    ensures IsDigitRun(d)
  {
    assert forall i :: 0 <= i < |d| ==> RunChar(d, i);
  }

  /** A numeral followed by a character that is neither a digit nor `_` is read by `^\d+` as that numeral. */
  lemma LeadingIntOfNumeral(n: nat, tail: string)
    requires tail == [] || !IsDigit(tail[0])
    ensures LeadingInt(NatToString(n) + tail) == Some(n)
  {
    var d := NatToString(n);
    var s := d + tail;
    var r := DigitPrefix(s);
    assert |r| >= |d| by {
      assert forall k :: 0 <= k < |d| ==> IsDigit(s[k]);
    }
    assert |r| <= |d| by {
      assert |s| > |d| ==> s[|d|] == tail[0];
    }
    assert r == s[..|d|] == d;
    DecimalRoundTrip(n);
  }

  /**
   * `int()` either reads a numeral followed by a non-digit, non-`_` tail as that
   * numeral (when the tail is whitespace) or rejects it.
   */
  lemma PyIntOfNumeralPrefix(n: nat, tail: string)
    requires tail == [] || (!IsDigit(tail[0]) && tail[0] != '_')
    ensures PyInt(NatToString(n) + tail) == None || PyInt(NatToString(n) + tail) == Some(n)
  {
    var d := NatToString(n);
    var s := d + tail;
    assert !IsIntSpace(d[0]) && !IsIntSpace(d[|d| - 1]);
    assert IntStrip(s) == d + IntRStrip(tail) by {
      IntLStripSkip([], s);
      assert [] + s == s;
      IntRStripAppend(d, tail);
    }
    var u := IntRStrip(tail);
    if u == [] {
      assert IntStrip(s) == d;
      assert IsDigitRun(d);
      DecimalRoundTrip(n);
    } else {
      IntRStripPrefix(tail);
      assert IntStrip(s)[|d|] == u[0] == tail[0];
      PyIntRejects(s, |d|);
    }
  }

}
