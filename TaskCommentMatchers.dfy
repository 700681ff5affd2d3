/**
 * Task comments: a comment line that starts with a task keyword (TODO,
 * FIXME, XXX or HACK) opens a task, and the task runs on through the next
 * line that ends with a period.
 */
module TaskCommentMatchers {
  import opened Wrappers
  import opened Strings
  import opened SourceComments

  /** The supported task keywords, after "TODO or To Bug". */
  const SupportedTasks: seq<string> := ["TODO", "FIXME", "XXX", "HACK"]

  // ---------------------------------------------------------------------
  // The keyword expression `^\s*(TODO|FIXME|XXX|HACK)[:|\s]` with flag `i`

  /**
   * Equal when compared with the `i` flag and without the `u` flag: a
   * character is compared by its upper case, and no character above ASCII
   * is taken to an ASCII one, so only ASCII letters lose their case.
   */
  predicate SameIgnoringCase(a: string, b: string)
  {
    |a| == |b| && forall k :: 0 <= k < |a| ==> ToUpper(a[k]) == ToUpper(b[k])
  }

  /** The character class `[:|\s]`. */
  predicate IsTaskDelimiter(c: char)
  {
    c == ':' || c == '|' || IsJsWhitespace(c)
  }

  /** Keyword `keyword` sits at offset `w` of `text` and is followed by a delimiter. */
  predicate KeywordAt(text: string, w: nat, keyword: string)
  {
    w + |keyword| < |text| && SameIgnoringCase(text[w..w + |keyword|], keyword) &&
    IsTaskDelimiter(text[w + |keyword|])
  }

  /** What the expression means: some whitespace prefix is followed by a keyword and a delimiter. */
  ghost predicate TaskExpressionMatches(text: string)
  {
    exists w: nat, t :: w <= |text| && 0 <= t < |SupportedTasks| &&
      (forall k :: 0 <= k < w ==> IsJsWhitespace(text[k])) && KeywordAt(text, w, SupportedTasks[t])
  }

  /** The length of the leading whitespace run. */
  function LeadingWhitespace(text: string): (n: nat)
    ensures n <= |text|
    ensures forall k :: 0 <= k < n ==> IsJsWhitespace(text[k])
    ensures n == |text| || !IsJsWhitespace(text[n])
  {
    if |text| > 0 && IsJsWhitespace(text[0]) then 1 + LeadingWhitespace(text[1..]) else 0
  }

  /** `taskRegex.test(text)`: the keyword must come right after the leading whitespace. */
  function TestTaskRegex(text: string): bool
  {
    var w := LeadingWhitespace(text);
    exists t :: 0 <= t < |SupportedTasks| && KeywordAt(text, w, SupportedTasks[t])
  }

  /** A character equal, ignoring case, to a keyword's first letter is an ASCII letter, never whitespace. */
  lemma KeywordStartIsLetter(c: char, t: nat)
    requires t < |SupportedTasks| && ToUpper(c) == ToUpper(SupportedTasks[t][0])
    ensures !IsJsWhitespace(c)
  {
  }

  /** The test agrees with the expression's meaning on every text. */
  lemma TestTaskRegexCorrect(text: string)
    ensures TestTaskRegex(text) <==> TaskExpressionMatches(text)
  {
    var n := LeadingWhitespace(text);
    if TaskExpressionMatches(text) {
      var w: nat, t :| w <= |text| && 0 <= t < |SupportedTasks| &&
        (forall k :: 0 <= k < w ==> IsJsWhitespace(text[k])) && KeywordAt(text, w, SupportedTasks[t]);
      assert ToUpper(text[w..w + |SupportedTasks[t]|][0]) == ToUpper(SupportedTasks[t][0]);
      KeywordStartIsLetter(text[w], t);
      assert w == n;
    }
    if TestTaskRegex(text) {
      var t :| 0 <= t < |SupportedTasks| && KeywordAt(text, n, SupportedTasks[t]);
      assert n <= |text| && (forall k :: 0 <= k < n ==> IsJsWhitespace(text[k])) && KeywordAt(text, n, SupportedTasks[t]);
    }
  }

  /** A character that differs, ignoring case, from the keyword's first letter rules the keyword out. */
  lemma NoKeywordAt(text: string, w: nat, keyword: string)
    requires w < |text| && |keyword| > 0 && ToUpper(text[w]) != ToUpper(keyword[0])
    ensures !KeywordAt(text, w, keyword)
  {
    if w + |keyword| < |text| {
      assert text[w..w + |keyword|][0] == text[w];
    }
  }

  /** A keyword glued to a word is no task: no text starting with "hacking" matches. */
  lemma GluedKeywordIsNoTask(rest: string)
    ensures !TaskExpressionMatches("hacking" + rest)
  {
    var text := "hacking" + rest;
    TestTaskRegexCorrect(text);
    assert text[0] == 'h' && text[4] == 'i';
    assert LeadingWhitespace(text) == 0;
    NoKeywordAt(text, 0, SupportedTasks[0]);
    NoKeywordAt(text, 0, SupportedTasks[1]);
    NoKeywordAt(text, 0, SupportedTasks[2]);
  }

  lemma UpperOfLower(c: char)
    ensures ToUpper(ToLower(c)) == ToUpper(c)
  {
  }

  /** Any keyword in lower case followed by a blank starts a task, whatever follows. */
  lemma LowerCaseKeywordIsTask(t: nat, rest: string)
    requires t < |SupportedTasks|
    ensures TaskExpressionMatches(LowerString(SupportedTasks[t]) + " " + rest)
  {
    var keyword := SupportedTasks[t];
    var text := LowerString(keyword) + " " + rest;
    assert text[0..|keyword|] == LowerString(keyword);
    forall k | 0 <= k < |keyword| ensures ToUpper(text[0..|keyword|][k]) == ToUpper(keyword[k]) {
      UpperOfLower(keyword[k]);
    }
    assert text[|keyword|] == ' ';
    assert KeywordAt(text, 0, keyword);
  }

  // ---------------------------------------------------------------------
  // Marking lines

  predicate EndsWithPeriod(text: string)
  {
    |text| > 0 && text[|text| - 1] == '.'
  }

  /** The loop's state after some lines: whether a task is open, and the marked line indices. */
  datatype TaskScan = TaskScan(isTask: bool, marked: seq<nat>)

  /** The marking loop over the first `n` lines, as the source runs it. */
  function Scan(texts: seq<string>, n: nat): (s: TaskScan)
    requires n <= |texts|
    ensures |s.marked| <= n
    ensures forall k :: 0 <= k < |s.marked| ==> s.marked[k] < n
  {
    if n == 0 then TaskScan(false, [])
    else
      var s := Scan(texts, n - 1);
      var line := texts[n - 1];
      var isTask := s.isTask || TestTaskRegex(line);
      if isTask then TaskScan(!EndsWithPeriod(line), s.marked + [n - 1])
      else TaskScan(false, s.marked)
  }

  /** Line `j` opened a task that no line from `j` up to (not including) `i` has closed. */
  ghost predicate OpenFrom(texts: seq<string>, j: nat, i: nat)
    requires j < i <= |texts|
  {
    TestTaskRegex(texts[j]) && forall m :: j <= m < i ==> !EndsWithPeriod(texts[m])
  }

  /** Some line before line `i` opened a task that is still open at line `i`. */
  ghost predicate OpenBefore(texts: seq<string>, i: nat)
    requires i <= |texts|
  {
    exists j :: 0 <= j < i && OpenFrom(texts, j, i)
  }

  /** A task is open after `n` lines iff some keyword line before has not been closed since. */
  lemma {:induction false} ScanOpen(texts: seq<string>, n: nat)
    requires n <= |texts|
    ensures Scan(texts, n).isTask <==> OpenBefore(texts, n)
    decreases n
  {
    if n > 0 {
      ScanOpen(texts, n - 1);
      var s := Scan(texts, n - 1);
      if Scan(texts, n).isTask {
        if s.isTask {
          var j :| 0 <= j < n - 1 && OpenFrom(texts, j, n - 1);
          assert OpenFrom(texts, j, n);
        } else {
          assert OpenFrom(texts, n - 1, n);
        }
      }
      if OpenBefore(texts, n) {
        var j :| 0 <= j < n && OpenFrom(texts, j, n);
        assert !EndsWithPeriod(texts[n - 1]);
        if j < n - 1 {
          assert OpenFrom(texts, j, n - 1);
        }
      }
    }
  }

  /** A line is marked iff it matches the keyword expression or a task opened on an earlier line is still open. */
  lemma {:induction false} ScanMarked(texts: seq<string>, n: nat)
    requires n <= |texts|
    ensures forall i :: i in Scan(texts, n).marked <==>
      0 <= i < n && (TestTaskRegex(texts[i]) || OpenBefore(texts, i))
    decreases n
  {
    forall i ensures i in Scan(texts, n).marked <==> 0 <= i < n && (TestTaskRegex(texts[i]) || OpenBefore(texts, i)) {
      ScanMarkedAt(texts, n, i);
    }
  }

  lemma {:induction false} ScanMarkedAt(texts: seq<string>, n: nat, i: int)
    requires n <= |texts|
    ensures i in Scan(texts, n).marked <==> 0 <= i < n && (TestTaskRegex(texts[i]) || OpenBefore(texts, i))
    decreases n
  {
    if n > 0 && 0 <= i < n {
      MarkedStep(texts, n);
      if i < n - 1 {
        ScanMarkedAt(texts, n - 1, i);
      } else {
        ScanOpen(texts, n - 1);
      }
    }
  }

  /** One more line adds its own index exactly when a task is open before it or starts on it. */
  lemma MarkedStep(texts: seq<string>, n: nat)
    requires 0 < n <= |texts|
    ensures forall i :: i in Scan(texts, n).marked <==>
      i in Scan(texts, n - 1).marked || (i == n - 1 && (Scan(texts, n - 1).isTask || TestTaskRegex(texts[n - 1])))
  {
  }

  /** The marked lines are in increasing order. */
  lemma {:induction false} ScanIncreasing(texts: seq<string>, n: nat)
    requires n <= |texts|
    ensures forall k, l :: 0 <= k < l < |Scan(texts, n).marked| ==> Scan(texts, n).marked[k] < Scan(texts, n).marked[l]
    decreases n
  {
    if n > 0 {
      ScanIncreasing(texts, n - 1);
    }
  }

  /** A keyword line is always marked. */
  lemma KeywordLineMarked(texts: seq<string>, i: nat)
    requires i < |texts| && TestTaskRegex(texts[i])
    ensures i in Scan(texts, |texts|).marked
  {
    ScanMarked(texts, |texts|);
  }

  /** No line is marked iff no line matches the keyword expression. */
  lemma NothingMarkedIffNoKeyword(texts: seq<string>)
    ensures Scan(texts, |texts|).marked == [] <==> forall i :: 0 <= i < |texts| ==> !TestTaskRegex(texts[i])
  {
    var marked := Scan(texts, |texts|).marked;
    ScanMarked(texts, |texts|);
    if marked != [] {
      var i := marked[0];
      assert i in marked;
      if !TestTaskRegex(texts[i]) {
        var j :| 0 <= j < i && OpenFrom(texts, j, i);
        assert TestTaskRegex(texts[j]);
      }
    } else {
      forall i | 0 <= i < |texts| ensures !TestTaskRegex(texts[i]) {
        assert i !in marked;
      }
    }
  }

  /**
   * The two-line task of a keyword line followed by a line ending in a
   * period; the third line is free.  Stated for every text of the shape
   * "TODO this is fun", "Still a comment.", "No longer a comment.".
   */
  lemma TaskRunsThroughPeriod(rest: string, closing: string, after: string)
    requires !EndsWithPeriod(rest)
    ensures Scan(["TODO " + rest, closing + ".", "N" + after], 3).marked == [0, 1]
  {
    var texts := ["TODO " + rest, closing + ".", "N" + after];
    assert Scan(texts, 1) == TaskScan(true, [0]) by {
      KeywordLineIsTask(0, rest);
      assert SupportedTasks[0] + " " + rest == texts[0];
      assert texts[0][|texts[0]| - 1] == if rest == [] then ' ' else rest[|rest| - 1];
    }
    assert Scan(texts, 2) == TaskScan(false, [0, 1]) by {
      assert EndsWithPeriod(texts[1]);
    }
    assert Scan(texts, 3).marked == [0, 1] by {
      PlainLineIsNoTask(after);
    }
  }

  lemma PlainLineIsNoTask(after: string)
    ensures !TestTaskRegex("N" + after)
  {
    var third := "N" + after;
    assert third[0] == 'N';
    assert LeadingWhitespace(third) == 0;
    forall t | 0 <= t < |SupportedTasks| ensures !KeywordAt(third, 0, SupportedTasks[t]) {
      NoKeywordAt(third, 0, SupportedTasks[t]);
    }
  }

  /** A keyword as listed, then a blank, passes the test. */
  lemma KeywordLineIsTask(t: nat, rest: string)
    requires t < |SupportedTasks|
    ensures TestTaskRegex(SupportedTasks[t] + " " + rest)
  {
    var keyword := SupportedTasks[t];
    var text := keyword + " " + rest;
    assert text[0] == keyword[0];
    KeywordStartIsLetter(text[0], t);
    assert LeadingWhitespace(text) == 0;
    assert text[0..|keyword|] == keyword;
    assert KeywordAt(text, 0, keyword);
  }

  /** The texts of the sanitized lines. */
  function LineTexts(lines: seq<CommentPart>): (texts: seq<string>)
    ensures |texts| == |lines| && forall k :: 0 <= k < |lines| ==> texts[k] == lines[k].text
  {
    Texts(lines)
  }

  /** The classification of a comment's sanitized lines. */
  function TaskClassifications(lines: seq<CommentPart>): seq<Classification>
  {
    LineClassifications(Task, Scan(LineTexts(lines), |lines|).marked, |lines|)
  }

  /** `classify`: marks the task lines of the comment and returns nothing, the whole comment, or the marked lines. */
  method Classify(comment: SourceComment, strip: string -> string) returns (r: seq<Classification>)
    requires KeepsLineCount(strip)
    ensures r == TaskClassifications(SanitizedLines(comment.parts, strip))
  {
    var lines := comment.GetSanitizedCommentLines(strip);
    r := ClassifyLines(lines);
  }

  /** The body of `classify` on the comment's sanitized lines. */
  method ClassifyLines(lines: seq<CommentPart>) returns (r: seq<Classification>)
    ensures r == TaskClassifications(lines)
  {
    ghost var texts := LineTexts(lines);
    var isTask := false;
    var linesWithTaskComment: seq<nat> := [];
    for lineNumber := 0 to |lines|
      invariant Scan(texts, lineNumber) == TaskScan(isTask, linesWithTaskComment)
    {
      var commentLine := lines[lineNumber];
      assert texts[lineNumber] == commentLine.text;
      if TestTaskRegex(commentLine.text) {
        isTask := true;
      }
      if isTask {
        linesWithTaskComment := linesWithTaskComment + [lineNumber];
        if EndsWithPeriod(commentLine.text) {
          isTask := false;
        }
      }
    }
    if |linesWithTaskComment| == 0 {
      return [];
    }
    if |linesWithTaskComment| == |lines| {
      return [Classification(Task, None)];
    }
    return [Classification(Task, Some(linesWithTaskComment))];
  }
}
