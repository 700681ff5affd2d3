/**
 * Fragments of the comment-quality walker: which code lines of a comment
 * are escaped in a ``` fence (and so allowed), and where comments are
 * required in a complex section of code.
 *
 * Everything the walker learns from the syntax tree arrives as data: the
 * line a requested line resolves to and whether a quality comment is near
 * it (`LineInfo`), and the line complexities it queued.  JavaScript's
 * number formatting is the parameter `show`.
 */
module QualityWalker {
  import opened Wrappers
  import opened Strings
  import SourceComments

  const SectionComplexityThreshold: real := 7.0
  const NodeTotalComplexityThreshold: real := 5.0
  const LineComplexityThreshold: real := 3.0

  // ---------------------------------------------------------------------
  // The fence regular expression /`{3,}[^`]*`{3,}/g

  /** The number of backticks starting at `i`. */
  function TickRun(text: string, i: nat): (n: nat)
    requires i <= |text|
    ensures i + n <= |text|
    ensures forall k :: i <= k < i + n ==> text[k] == '`'
    ensures i + n == |text| || text[i + n] != '`'
    decreases |text| - i
  {
    if i < |text| && text[i] == '`' then 1 + TickRun(text, i + 1) else 0
  }

  /** The number of other characters starting at `i`. */
  function PlainRun(text: string, i: nat): (n: nat)
    requires i <= |text|
    ensures i + n <= |text|
    ensures forall k :: i <= k < i + n ==> text[k] != '`'
    ensures i + n == |text| || text[i + n] == '`'
    decreases |text| - i
  {
    if i < |text| && text[i] != '`' then 1 + PlainRun(text, i + 1) else 0
  }

  /** `s` splits into `a` backticks, other characters, and `b` backticks. */
  predicate FenceSplit(s: string, a: nat, b: nat)
  {
    3 <= a && 3 <= b && a + b <= |s| &&
    (forall k :: 0 <= k < a ==> s[k] == '`') &&
    (forall k :: |s| - b <= k < |s| ==> s[k] == '`') &&
    (forall k :: a <= k < |s| - b ==> s[k] != '`')
  }

  /** A text the expression matches: at least three backticks, other characters, at least three backticks. */
  ghost predicate IsFence(s: string)
  {
    exists a: nat, b: nat :: FenceSplit(s, a, b)
  }

  /**
   * Where the match starting at `i` ends, if there is one.  The greedy
   * opening run, the other characters and a closing run of three or more;
   * failing that, backtracking finds a fence inside an opening run of six
   * or more.
   */
  function FenceEndAt(text: string, i: nat): (r: Option<nat>)
    requires i <= |text|
    ensures r.Some? ==> i + 6 <= r.value <= |text|
  {
    var open := TickRun(text, i);
    if open < 3 then None
    else
      var j := i + open + PlainRun(text, i + open);
      var close := TickRun(text, j);
      if close >= 3 then Some(j + close)
      else if open >= 6 then Some(i + open)
      else None
  }

  /** The match at `i` is the longest fence starting at `i`, and there is none when there is no match. */
  lemma FenceEndAtLongest(text: string, i: nat)
    requires i <= |text|
    ensures FenceEndAt(text, i).Some? ==> IsFence(text[i..FenceEndAt(text, i).value])
    ensures forall e :: i < e <= |text| && IsFence(text[i..e]) ==>
      FenceEndAt(text, i).Some? && e <= FenceEndAt(text, i).value
  {
    var open := TickRun(text, i);
    if open >= 3 {
      var j := i + open + PlainRun(text, i + open);
      var close := TickRun(text, j);
      if close >= 3 {
        assert FenceSplit(text[i..j + close], open, close);
      } else if open >= 6 {
        assert FenceSplit(text[i..i + open], open - 3, 3);
      }
    }
    forall e | i < e <= |text| && IsFence(text[i..e])
      ensures FenceEndAt(text, i).Some? && e <= FenceEndAt(text, i).value
    {
      FenceBound(text, i, e);
    }
  }

  lemma {:induction false} TickRunAtLeast(text: string, i: nat, n: nat)
    requires i + n <= |text|
    requires forall k :: i <= k < i + n ==> text[k] == '`'
    ensures TickRun(text, i) >= n
    decreases n
  {
    if n > 0 {
      TickRunAtLeast(text, i + 1, n - 1);
    }
  }

  lemma {:induction false} PlainRunAtLeast(text: string, i: nat, n: nat)
    requires i + n <= |text|
    requires forall k :: i <= k < i + n ==> text[k] != '`'
    ensures PlainRun(text, i) >= n
    decreases n
  {
    if n > 0 {
      PlainRunAtLeast(text, i + 1, n - 1);
    }
  }

  lemma FenceBound(text: string, i: nat, e: nat)
    requires i < e <= |text| && IsFence(text[i..e])
    ensures FenceEndAt(text, i).Some? && e <= FenceEndAt(text, i).value
  {
    var a: nat, b: nat :| FenceSplit(text[i..e], a, b);
    TickRunAtLeast(text, i, a);
    if e > i + TickRun(text, i) {
      FenceOpensWithTickRun(text, i, e, a, b);
      FenceClosesAfterPlainRun(text, i, e, b);
    }
  }

  /** A fence that goes past the opening run uses all of it, then other characters up to its closing run. */
  lemma FenceOpensWithTickRun(text: string, i: nat, e: nat, a: nat, b: nat)
    requires i < e <= |text| && FenceSplit(text[i..e], a, b)
    requires a <= TickRun(text, i) && e > i + TickRun(text, i)
    ensures TickRun(text, i) == a && a < e - i - b
  {
    var s := text[i..e];
    var open := TickRun(text, i);
    assert s[open] == text[i + open];
    assert s[a] == text[i + a];
  }

  /** After the opening run, the other characters end where the closing run begins. */
  lemma FenceClosesAfterPlainRun(text: string, i: nat, e: nat, b: nat)
    requires i < e <= |text| && FenceSplit(text[i..e], TickRun(text, i), b)
    requires TickRun(text, i) < e - i - b
    ensures FenceEndAt(text, i).Some? && e <= FenceEndAt(text, i).value
  {
    var open := TickRun(text, i);
    FenceSplitInText(text, i, e, open, b);
    PlainRunAtLeast(text, i + open, e - b - (i + open));
    assert text[e - b] == '`';
    var j := i + open + PlainRun(text, i + open);
    assert j == e - b;
    TickRunAtLeast(text, j, b);
  }

  /** The parts of a fence found at `i` in the text, by position in the text. */
  lemma FenceSplitInText(text: string, i: nat, e: nat, a: nat, b: nat)
    requires i < e <= |text| && FenceSplit(text[i..e], a, b)
    ensures forall k :: i + a <= k < e - b ==> text[k] != '`'
    ensures forall k :: e - b <= k < e ==> text[k] == '`'
  {
    var s := text[i..e];
    forall k | i + a <= k < e - b ensures text[k] != '`' {
      assert text[k] == s[k - i];
    }
    forall k | e - b <= k < e ensures text[k] == '`' {
      assert text[k] == s[k - i];
    }
  }

  /** The next match at or after `from`, as `exec` finds it: its start and end. */
  function NextFence(text: string, from: nat): (r: Option<(nat, nat)>)
    requires from <= |text|
    ensures r.Some? ==> from <= r.value.0 <= |text| && FenceEndAt(text, r.value.0) == Some(r.value.1)
    decreases |text| - from
  {
    if from == |text| then None
    else match FenceEndAt(text, from)
      case Some(e) => Some((from, e))
      case None => NextFence(text, from + 1)
  }

  /** The next match is the leftmost: the pattern matches at no earlier position, and nowhere when there is none. */
  lemma NextFenceLeftmost(text: string, from: nat)
    requires from <= |text|
    ensures NextFence(text, from).Some? ==>
      forall i :: from <= i < NextFence(text, from).value.0 ==> FenceEndAt(text, i) == None
    ensures NextFence(text, from).None? ==> forall i :: from <= i <= |text| ==> FenceEndAt(text, i) == None
  {
    forall i | from <= i <= |text| && (NextFence(text, from).None? || i < NextFence(text, from).value.0)
      ensures FenceEndAt(text, i) == None
    {
      NoFenceBeforeNext(text, from, i);
    }
  }

  lemma {:induction false} NoFenceBeforeNext(text: string, from: nat, i: nat)
    requires from <= i <= |text|
    requires NextFence(text, from).None? || i < NextFence(text, from).value.0
    ensures FenceEndAt(text, i) == None
    decreases i - from
  {
    if from == |text| {
      assert TickRun(text, i) == 0;
    } else if from < i {
      NoFenceBeforeNext(text, from + 1, i);
    }
  }

  /** All matches `exec` returns, one after the other, from `from` on. */
  function Fences(text: string, from: nat): (r: seq<(nat, nat)>)
    requires from <= |text|
    ensures forall k :: 0 <= k < |r| ==> from <= r[k].0 && r[k].0 + 6 <= r[k].1 <= |text|
    decreases |text| - from
  {
    match NextFence(text, from)
    case None => []
    case Some(m) => [m] + Fences(text, m.1)
  }

  /** Each match ends before the next one starts. */
  predicate NonOverlapping(r: seq<(nat, nat)>)
  {
    forall k, j :: 0 <= k < j < |r| ==> r[k].1 <= r[j].0
  }

  /** The matches do not overlap. */
  lemma {:induction false} FencesOrdered(text: string, from: nat)
    requires from <= |text|
    ensures NonOverlapping(Fences(text, from))
    decreases |text| - from
  {
    if NextFence(text, from).Some? {
      var m := NextFence(text, from).value;
      FencesOrdered(text, m.1);
      ConsNonOverlapping(m, Fences(text, m.1));
    }
  }

  lemma ConsNonOverlapping(m: (nat, nat), tail: seq<(nat, nat)>)
    requires forall i :: 0 <= i < |tail| ==> m.1 <= tail[i].0
    requires NonOverlapping(tail)
    ensures NonOverlapping([m] + tail)
  {
    var r := [m] + tail;
    forall k, j | 0 <= k < j < |r| ensures r[k].1 <= r[j].0 {
      assert r[j] == tail[j - 1];
      if k > 0 {
        assert r[k] == tail[k - 1];
      }
    }
  }

  /** A match escapes the code when it starts at or before the code's position and contains the code. */
  predicate FenceEscapes(commentText: string, fence: (nat, nat), codeText: string, codePosition: int)
    requires fence.0 <= fence.1 <= |commentText|
  {
    fence.0 <= codePosition && Contains(commentText[fence.0..fence.1], codeText)
  }

  /** The escaping rule: the code lies within the comment and some match escapes it. */
  predicate Escaped(codeText: string, commentText: string, codePosition: int)
  {
    0 <= codePosition <= |commentText| &&
    var fences := Fences(commentText, 0);
    exists k :: 0 <= k < |fences| && FenceEscapes(commentText, fences[k], codeText, codePosition)
  }

  /** What the scan has passed over so far: matches that do not escape the code. */
  ghost predicate ScannedTo(codeText: string, commentText: string, codePosition: int, seen: seq<(nat, nat)>, lastIndex: nat)
    requires lastIndex <= |commentText|
  {
    Fences(commentText, 0) == seen + Fences(commentText, lastIndex) &&
    forall k :: 0 <= k < |seen| ==>
      seen[k].0 <= seen[k].1 <= |commentText| && !FenceEscapes(commentText, seen[k], codeText, codePosition)
  }

  lemma ScanStep(codeText: string, commentText: string, codePosition: int, seen: seq<(nat, nat)>, lastIndex: nat)
    requires lastIndex <= |commentText| && ScannedTo(codeText, commentText, codePosition, seen, lastIndex)
    requires NextFence(commentText, lastIndex).Some?
    requires var m := NextFence(commentText, lastIndex).value;
      !FenceEscapes(commentText, m, codeText, codePosition)
    ensures var m := NextFence(commentText, lastIndex).value;
      ScannedTo(codeText, commentText, codePosition, seen + [m], m.1)
  {
    var m := NextFence(commentText, lastIndex).value;
    assert Fences(commentText, lastIndex) == [m] + Fences(commentText, m.1);
    assert seen + Fences(commentText, lastIndex) == (seen + [m]) + Fences(commentText, m.1);
  }

  lemma ScanFound(codeText: string, commentText: string, codePosition: int, seen: seq<(nat, nat)>, lastIndex: nat)
    requires 0 <= codePosition <= |commentText|
    requires lastIndex <= |commentText| && ScannedTo(codeText, commentText, codePosition, seen, lastIndex)
    requires NextFence(commentText, lastIndex).Some?
    requires FenceEscapes(commentText, NextFence(commentText, lastIndex).value, codeText, codePosition)
    ensures Escaped(codeText, commentText, codePosition)
  {
    var m := NextFence(commentText, lastIndex).value;
    assert Fences(commentText, 0)[|seen|] == m;
  }

  lemma ScanPassed(codeText: string, commentText: string, codePosition: int, seen: seq<(nat, nat)>, lastIndex: nat)
    requires lastIndex <= |commentText| && ScannedTo(codeText, commentText, codePosition, seen, lastIndex)
    requires NextFence(commentText, lastIndex).None? || NextFence(commentText, lastIndex).value.0 > codePosition
    ensures !Escaped(codeText, commentText, codePosition)
  {
    var rest := Fences(commentText, lastIndex);
    var fences := Fences(commentText, 0);
    forall k | 0 <= k < |fences| ensures !FenceEscapes(commentText, fences[k], codeText, codePosition) {
      if k >= |seen| {
        assert fences[k] == rest[k - |seen|];
        assert rest[0] == NextFence(commentText, lastIndex).value;
      }
    }
  }

  /** `isEscapedCode`: the scan over the matches, stopping at the first one that starts after the code. */
  method IsEscapedCode(codeText: string, commentText: string, codePosition: int) returns (r: bool)
    ensures r == Escaped(codeText, commentText, codePosition)
  {
    if codePosition < 0 || codePosition > |commentText| {
      return false;
    }
    var lastIndex := 0;
    var found := NextFence(commentText, lastIndex);
    ghost var seen: seq<(nat, nat)> := [];
    while found.Some?
      invariant lastIndex <= |commentText|
      invariant found == NextFence(commentText, lastIndex)
      invariant ScannedTo(codeText, commentText, codePosition, seen, lastIndex)
      decreases |commentText| - lastIndex
    {
      var (index, end) := found.value;
      if index > codePosition {
        ScanPassed(codeText, commentText, codePosition, seen, lastIndex);
        return false;
      }
      if Contains(commentText[index..end], codeText) {
        ScanFound(codeText, commentText, codePosition, seen, lastIndex);
        return true;
      }
      ScanStep(codeText, commentText, codePosition, seen, lastIndex);
      seen := seen + [(index, end)];
      lastIndex := end;
      found := NextFence(commentText, lastIndex);
    }
    ScanPassed(codeText, commentText, codePosition, seen, lastIndex);
    return false;
  }

  /** Code written right inside a fence is escaped. */
  lemma FencedCodeIsEscaped(code: string)
    requires |code| > 0
    requires forall k :: 0 <= k < |code| ==> code[k] != '`'
    ensures Escaped(code, "```" + code + "```", 0)
  {
    var text := "```" + code + "```";
    TickRunAtLeast(text, 3 + |code|, 3);
    PlainRunOver(text, 3, |code|);
    assert text[3] == code[0];
    assert TickRun(text, 0) == 3 by {
      TickRunAtLeast(text, 0, 3);
    }
    assert FenceEndAt(text, 0) == Some(|text|);
    assert Fences(text, 0)[0] == (0, |text|);
    assert text[0..|text|] == "```" + code + "```";
    ContainsInner("```", code, "```");
    assert FenceEscapes(text, Fences(text, 0)[0], code, 0);
  }

  lemma {:induction false} PlainRunOver(text: string, i: nat, n: nat)
    requires i + n < |text| && text[i + n] == '`'
    requires forall k :: i <= k < i + n ==> text[k] != '`'
    ensures PlainRun(text, i) == n
    decreases n
  {
    if n > 0 {
      PlainRunOver(text, i + 1, n - 1);
    }
  }

  /**
   * Code at a position with no backtick at or before it is not escaped: every
   * match starts with a backtick, so each one starts after the code,
   * whatever it contains.
   */
  lemma FenceAfterCodeDoesNotEscape(code: string, text: string, pos: int)
    requires 0 <= pos <= |text|
    requires forall i :: 0 <= i <= pos && i < |text| ==> text[i] != '`'
    ensures !Escaped(code, text, pos)
  {
    var fences := Fences(text, 0);
    forall k | 0 <= k < |fences| ensures pos < fences[k].0 {
      FencesStartWithTick(text, 0, k);
    }
  }

  /** Every match starts with a backtick. */
  lemma {:induction false} FencesStartWithTick(text: string, from: nat, k: nat)
    requires from <= |text| && k < |Fences(text, from)|
    ensures Fences(text, from)[k].0 < |text| && text[Fences(text, from)[k].0] == '`'
    decreases k
  {
    var m := NextFence(text, from).value;
    if k == 0 {
      assert FenceEndAt(text, m.0).Some?;
      assert TickRun(text, m.0) >= 3;
    } else {
      FencesStartWithTick(text, m.1, k - 1);
      assert Fences(text, from)[k] == Fences(text, m.1)[k - 1];
    }
  }

  // ---------------------------------------------------------------------
  // Code lines that are not escaped

  /**
   * The listed code lines whose sanitized line is not escaped within the
   * sanitized comment text, in their listed order.
   */
  function UnescapedLines(codeLines: seq<nat>, lines: seq<SourceComments.CommentPart>, comment: SourceComments.CommentPart): (r: seq<nat>)
    requires forall k :: 0 <= k < |codeLines| ==> codeLines[k] < |lines|
    ensures |r| <= |codeLines|
  {
    if |codeLines| == 0 then []
    else
      var n := codeLines[|codeLines| - 1];
      UnescapedLines(codeLines[..|codeLines| - 1], lines, comment) +
        (if LineEscaped(lines[n], comment) then [] else [n])
  }

  /** The rule applied to one sanitized line of the comment. */
  predicate LineEscaped(line: SourceComments.CommentPart, comment: SourceComments.CommentPart)
  {
    Escaped(line.text, comment.text, line.pos - comment.pos)
  }

  /** A line stays exactly when it is listed and not escaped. */
  lemma {:induction false} UnescapedLinesMembers(codeLines: seq<nat>, lines: seq<SourceComments.CommentPart>, comment: SourceComments.CommentPart)
    requires forall k :: 0 <= k < |codeLines| ==> codeLines[k] < |lines|
    ensures forall n :: n in UnescapedLines(codeLines, lines, comment) <==>
      (n in codeLines && !Escaped(lines[n].text, comment.text, lines[n].pos - comment.pos))
    decreases |codeLines|
  {
    if |codeLines| > 0 {
      var front := codeLines[..|codeLines| - 1];
      var last := codeLines[|codeLines| - 1];
      UnescapedLinesMembers(front, lines, comment);
      assert codeLines == front + [last];
      forall n ensures n in codeLines <==> n in front || n == last {
      }
    }
  }

  /** The list of the first `n + 1` listed lines: one more line is judged. */
  lemma UnescapedSnoc(codeLines: seq<nat>, n: nat, lines: seq<SourceComments.CommentPart>, comment: SourceComments.CommentPart)
    requires n < |codeLines| && forall k :: 0 <= k < |codeLines| ==> codeLines[k] < |lines|
    ensures UnescapedLines(codeLines[..n + 1], lines, comment) ==
      UnescapedLines(codeLines[..n], lines, comment) +
      (if LineEscaped(lines[codeLines[n]], comment) then [] else [codeLines[n]])
  {
    assert codeLines[..n + 1][..n] == codeLines[..n];
  }

  /** Cutting out the element at `i`: what stands before it stays, what follows it moves up. */
  lemma SpliceParts(s: seq<nat>, i: nat)
    requires i < |s|
    ensures (s[..i] + s[i + 1..])[..i] == s[..i]
    ensures (s[..i] + s[i + 1..])[i..] == s[i + 1..]
  {
  }

  /** `a` is `b` with some elements left out, the rest in order. */
  predicate SubsequenceOf(a: seq<nat>, b: seq<nat>)
    decreases |b|
  {
    |a| == 0 ||
    (|b| > 0 &&
      ((a[|a| - 1] == b[|b| - 1] && SubsequenceOf(a[..|a| - 1], b[..|b| - 1])) || SubsequenceOf(a, b[..|b| - 1])))
  }

  /** The kept lines keep their order. */
  lemma {:induction false} UnescapedIsSubsequence(codeLines: seq<nat>, lines: seq<SourceComments.CommentPart>, comment: SourceComments.CommentPart)
    requires forall k :: 0 <= k < |codeLines| ==> codeLines[k] < |lines|
    ensures SubsequenceOf(UnescapedLines(codeLines, lines, comment), codeLines)
    decreases |codeLines|
  {
    if |codeLines| > 0 {
      var front := codeLines[..|codeLines| - 1];
      var n := codeLines[|codeLines| - 1];
      var kept := UnescapedLines(front, lines, comment);
      UnescapedIsSubsequence(front, lines, comment);
      var r := UnescapedLines(codeLines, lines, comment);
      if LineEscaped(lines[n], comment) {
        assert r == kept;
      } else {
        assert r == kept + [n];
        assert r[..|r| - 1] == kept;
      }
    }
  }

  const FilterError := "Need code classification with classification lines to filter!"

  /**
   * `getUnescapedCodeLines` for a comment without JSDoc: refuses anything
   * but a code classification with a line list, otherwise drops the lines
   * escaped in a fence.  The classification itself is a value and stays
   * as it was.
   */
  method GetUnescapedCodeLines(classification: SourceComments.Classification, comment: SourceComments.SourceComment,
                               strip: string -> string) returns (r: Result<seq<nat>, string>)
    requires comment.Valid() && SourceComments.KeepsLineCount(strip)
    requires classification.lines.Some? ==> forall k :: 0 <= k < |classification.lines.value| ==>
      classification.lines.value[k] < |SourceComments.SanitizedLines(comment.parts, strip)|
    ensures classification.lines.None? || classification.commentClass != SourceComments.Code ==> r == Failure(FilterError)
    ensures classification.lines.Some? && classification.commentClass == SourceComments.Code ==>
      r == Success(UnescapedLines(classification.lines.value, SourceComments.SanitizedLines(comment.parts, strip),
                                  SourceComments.SanitizedCommentText(comment.parts, strip)))
  {
    if classification.lines.None? || classification.commentClass != SourceComments.Code {
      return Failure(FilterError);
    }
    var commentLines := comment.GetSanitizedCommentLines(strip);
    var commentText := comment.GetSanitizedCommentText(strip);
    var unacceptableLines := DropEscaped(classification.lines.value, commentLines, commentText);
    return Success(unacceptableLines);
  }

  /** The splice loop: an escaped line is cut out where it stands, otherwise the index moves on. */
  method DropEscaped(original: seq<nat>, commentLines: seq<SourceComments.CommentPart>, commentText: SourceComments.CommentPart)
    returns (unacceptableLines: seq<nat>)
    requires forall k :: 0 <= k < |original| ==> original[k] < |commentLines|
    ensures unacceptableLines == UnescapedLines(original, commentLines, commentText)
  {
    unacceptableLines := original;
    var currentIndex := 0;
    ghost var consumed := 0;
    while currentIndex < |unacceptableLines|
      invariant 0 <= currentIndex <= |unacceptableLines| && consumed <= |original|
      invariant |unacceptableLines| - currentIndex == |original| - consumed
      invariant unacceptableLines[..currentIndex] == UnescapedLines(original[..consumed], commentLines, commentText)
      invariant unacceptableLines[currentIndex..] == original[consumed..]
      decreases |unacceptableLines| - currentIndex
    {
      var codeLineNumber := unacceptableLines[currentIndex];
      assert codeLineNumber == original[consumed] by {
        assert unacceptableLines[currentIndex..][0] == original[consumed..][0];
      }
      var commentPos := commentLines[codeLineNumber].pos - commentText.pos;
      var escaped := IsEscapedCode(commentLines[codeLineNumber].text, commentText.text, commentPos);
      UnescapedSnoc(original, consumed, commentLines, commentText);
      ghost var before := unacceptableLines;
      if escaped {
        SpliceParts(unacceptableLines, currentIndex);
        unacceptableLines := unacceptableLines[..currentIndex] + unacceptableLines[currentIndex + 1..];
      } else {
        currentIndex := currentIndex + 1;
        assert unacceptableLines[..currentIndex] == before[..currentIndex - 1] + [codeLineNumber];
      }
      assert original[consumed..][1..] == original[consumed + 1..];
      consumed := consumed + 1;
    }
    assert original[..consumed] == original;
  }

  // ---------------------------------------------------------------------
  // Comment requirements

  /**
   * What the syntax tree says about a requested line: there is no node
   * enclosing it, or the line its enclosing node starts on and whether a
   * quality comment lies close to it.
   */
  datatype LineInfo = NoEnclosingNode | EnclosedAt(line: int, commented: bool)

  const DefaultRequirementMessage := "This line should be commented"

  /** A missing or empty message is replaced by the default one. */
  function MessageOrDefault(failureMessage: Option<string>): (m: string)
    ensures m == DefaultRequirementMessage <==> failureMessage.None? || failureMessage.value in {"", DefaultRequirementMessage}
  {
    if failureMessage.Some? && failureMessage.value != "" then failureMessage.value else DefaultRequirementMessage
  }

  /** `requireCommentForLine`: whether a requirement was added, and the new requirement map. */
  function Require(required: map<int, seq<string>>, info: LineInfo, failureMessage: Option<string>): (r: (bool, map<int, seq<string>>))
  {
    match info
    case NoEnclosingNode => (false, required)
    case EnclosedAt(line, commented) =>
      if commented then (false, required)
      else if line in required then (false, required[line := required[line] + [MessageOrDefault(failureMessage)]])
      else (true, required[line := [MessageOrDefault(failureMessage)]])
  }

  /**
   * A requirement is added exactly for an uncommented line without one; an
   * uncommented line with requirements gets one more message; nothing else
   * changes.
   */
  lemma RequireSpec(required: map<int, seq<string>>, info: LineInfo, failureMessage: Option<string>)
    ensures Require(required, info, failureMessage).0 <==>
      info.EnclosedAt? && !info.commented && info.line !in required
    ensures var after := Require(required, info, failureMessage).1;
      (info.NoEnclosingNode? || info.commented ==> after == required) &&
      (info.EnclosedAt? && !info.commented ==>
        after.Keys == required.Keys + {info.line} &&
        after[info.line] == (if info.line in required then required[info.line] else []) + [MessageOrDefault(failureMessage)] &&
        forall l :: l in required && l != info.line ==> after[l] == required[l])
  {
  }

  /** Earlier requirements are kept: each line's messages only grow at the end. */
  predicate Grows(before: map<int, seq<string>>, after: map<int, seq<string>>)
  {
    forall l :: l in before ==> l in after && |before[l]| <= |after[l]| && after[l][..|before[l]|] == before[l]
  }

  lemma RequireGrows(required: map<int, seq<string>>, info: LineInfo, failureMessage: Option<string>)
    ensures Grows(required, Require(required, info, failureMessage).1)
  {
    var after := Require(required, info, failureMessage).1;
    forall l | l in required ensures l in after && |required[l]| <= |after[l]| && after[l][..|required[l]|] == required[l] {
      if info.EnclosedAt? && !info.commented && l == info.line {
        assert after[l] == required[l] + [MessageOrDefault(failureMessage)];
      }
    }
  }

  lemma GrowsTransitive(a: map<int, seq<string>>, b: map<int, seq<string>>, c: map<int, seq<string>>)
    requires Grows(a, b) && Grows(b, c)
    ensures Grows(a, c)
  {
    forall l | l in a ensures l in c && |a[l]| <= |c[l]| && c[l][..|a[l]|] == a[l] {
      assert c[l][..|a[l]|] == c[l][..|b[l]|][..|a[l]|];
    }
  }

  /** A line's complexity, as queued by the walker. */
  datatype LineComplexity = LineComplexity(line: int, complexity: real)

  /** The first position of a highest complexity. */
  function MaxIndex(items: seq<LineComplexity>): (k: nat)
    requires |items| > 0
    ensures k < |items| && forall j :: 0 <= j < |items| ==> items[j].complexity <= items[k].complexity
  {
    if |items| == 1 then 0
    else
      var k := MaxIndex(items[..|items| - 1]);
      if items[|items| - 1].complexity > items[k].complexity then |items| - 1 else k
  }

  function RemoveAt(items: seq<LineComplexity>, k: nat): (r: seq<LineComplexity>)
    requires k < |items|
    ensures multiset(r) + multiset{items[k]} == multiset(items)
  {
    assert items == items[..k] + [items[k]] + items[k + 1..];
    items[..k] + items[k + 1..]
  }

  /**
   * The priority queue of line complexities, highest complexity first.
   * Among equal complexities it yields the first queued.
   */
  class LineQueue {
    var items: seq<LineComplexity>

    constructor (items: seq<LineComplexity>)
      ensures this.items == items
    {
      this.items := items;
    }

    /** Removes and returns an entry of highest complexity, nothing when empty. */
    method Dequeue() returns (r: Option<LineComplexity>)
      modifies this
      ensures old(items) == [] ==> r == None && items == []
      ensures old(items) != [] ==> r == Some(old(items)[MaxIndex(old(items))])
      ensures old(items) != [] ==> items == RemoveAt(old(items), MaxIndex(old(items)))
    {
      if |items| == 0 {
        return None;
      }
      var k := MaxIndex(items);
      r := Some(items[k]);
      items := RemoveAt(items, k);
    }
  }

  function SectionStartReason(complexity: real, show: real -> string): string
  {
    "sectionstart: " + show(complexity)
  }

  function MostComplexReason(line: LineComplexity, complexity: real, show: real -> string): string
  {
    "most complex: " + show(line.complexity) + " - total: " + show(complexity)
  }

  /** The search for a line to require a comment on, one dequeued entry after the other. */
  function Fallback(required: map<int, seq<string>>, items: seq<LineComplexity>, complexity: real, lineThreshold: real,
                    lineInfo: int -> LineInfo, show: real -> string): (r: (map<int, seq<string>>, seq<LineComplexity>))
    decreases |items|
  {
    if |items| == 0 then (required, items)
    else
      var k := MaxIndex(items);
      var highest := items[k];
      var rest := RemoveAt(items, k);
      if highest.complexity < lineThreshold then (required, rest)
      else
        var (added, required') := Require(required, lineInfo(highest.line), Some(MostComplexReason(highest, complexity, show)));
        if added then (required', rest) else Fallback(required', rest, complexity, lineThreshold, lineInfo, show)
  }

  /** `enforceCommentRequirementForSection`: its result, the new requirement map and what is left in the queue. */
  function Enforce(required: map<int, seq<string>>, items: seq<LineComplexity>, complexity: real, threshold: real,
                   sectionStartLine: int, lineThreshold: real, lineInfo: int -> LineInfo, show: real -> string):
    (r: (bool, map<int, seq<string>>, seq<LineComplexity>))
    ensures r.0 <==> complexity >= threshold
  {
    if complexity < threshold then (false, required, items)
    else
      var (added, required') := Require(required, lineInfo(sectionStartLine), Some(SectionStartReason(complexity, show)));
      if added then (true, required', items)
      else
        var (required'', items') := Fallback(required', items, complexity, lineThreshold, lineInfo, show);
        (true, required'', items')
  }

  /**
   * The fallback search dequeues in order of complexity: it only takes
   * entries out, and every entry it took out is at least as complex as
   * every entry left.
   */
  lemma {:induction false} FallbackTakesHighest(required: map<int, seq<string>>, items: seq<LineComplexity>, complexity: real,
                                               lineThreshold: real, lineInfo: int -> LineInfo, show: real -> string)
    ensures var left := Fallback(required, items, complexity, lineThreshold, lineInfo, show).1;
      multiset(left) <= multiset(items) &&
      forall x, y :: x in multiset(items) - multiset(left) && y in left ==> y.complexity <= x.complexity
    decreases |items|
  {
    if |items| > 0 {
      var k := MaxIndex(items);
      var highest := items[k];
      var rest := RemoveAt(items, k);
      var left := Fallback(required, items, complexity, lineThreshold, lineInfo, show).1;
      var (added, required') := Require(required, lineInfo(highest.line), Some(MostComplexReason(highest, complexity, show)));
      if highest.complexity >= lineThreshold && !added {
        FallbackTakesHighest(required', rest, complexity, lineThreshold, lineInfo, show);
        assert left == Fallback(required', rest, complexity, lineThreshold, lineInfo, show).1;
      } else {
        assert left == rest;
      }
      TakenFirst(items, left);
    }
  }

  /** Taking out a highest entry first keeps the order property of what is taken out afterwards. */
  lemma {:induction false} TakenFirst(items: seq<LineComplexity>, left: seq<LineComplexity>)
    requires |items| > 0
    requires var rest := RemoveAt(items, MaxIndex(items));
      multiset(left) <= multiset(rest) &&
      forall x, y :: x in multiset(rest) - multiset(left) && y in left ==> y.complexity <= x.complexity
    ensures multiset(left) <= multiset(items)
    ensures forall x, y :: x in multiset(items) - multiset(left) && y in left ==> y.complexity <= x.complexity
  {
    var rest := RemoveAt(items, MaxIndex(items));
    forall x, y | x in multiset(items) - multiset(left) && y in left ensures y.complexity <= x.complexity {
      TakenPair(items, rest, left, x, y);
    }
  }

  lemma {:induction false} TakenPair(items: seq<LineComplexity>, rest: seq<LineComplexity>, left: seq<LineComplexity>,
                                     x: LineComplexity, y: LineComplexity)
    requires |items| > 0 && rest == RemoveAt(items, MaxIndex(items))
    requires multiset(left) <= multiset(rest)
    requires forall x, y :: x in multiset(rest) - multiset(left) && y in left ==> y.complexity <= x.complexity
    requires x in multiset(items) - multiset(left) && y in left
    ensures y.complexity <= x.complexity
  {
    var highest := items[MaxIndex(items)];
    assert multiset(items) == multiset(rest) + multiset{highest};
    if x == highest {
      assert y in multiset(rest);
      assert y in multiset(items);
      var j :| 0 <= j < |items| && items[j] == y;
    } else {
      assert multiset(items)[x] == multiset(rest)[x];
      assert x in multiset(rest) - multiset(left);
    }
  }

  /** The fallback search keeps earlier requirements: each line's messages only grow at the end. */
  lemma {:induction false} FallbackGrows(required: map<int, seq<string>>, items: seq<LineComplexity>, complexity: real,
                                        lineThreshold: real, lineInfo: int -> LineInfo, show: real -> string)
    ensures Grows(required, Fallback(required, items, complexity, lineThreshold, lineInfo, show).0)
    decreases |items|
  {
    if |items| > 0 {
      var k := MaxIndex(items);
      var highest := items[k];
      var rest := RemoveAt(items, k);
      if highest.complexity >= lineThreshold {
        var message := Some(MostComplexReason(highest, complexity, show));
        var (added, required') := Require(required, lineInfo(highest.line), message);
        RequireGrows(required, lineInfo(highest.line), message);
        if !added {
          FallbackGrows(required', rest, complexity, lineThreshold, lineInfo, show);
          GrowsTransitive(required, required', Fallback(required', rest, complexity, lineThreshold, lineInfo, show).0);
        }
      }
    }
  }

  /** Requirements found before keep their messages through the whole enforcement. */
  lemma EnforceGrows(required: map<int, seq<string>>, items: seq<LineComplexity>, complexity: real, threshold: real,
                     sectionStartLine: int, lineThreshold: real, lineInfo: int -> LineInfo, show: real -> string)
    ensures var r := Enforce(required, items, complexity, threshold, sectionStartLine, lineThreshold, lineInfo, show);
      Grows(required, r.1) && multiset(r.2) <= multiset(items)
  {
    if complexity >= threshold {
      var (added, required') := Require(required, lineInfo(sectionStartLine), Some(SectionStartReason(complexity, show)));
      RequireGrows(required, lineInfo(sectionStartLine), Some(SectionStartReason(complexity, show)));
      FallbackTakesHighest(required', items, complexity, lineThreshold, lineInfo, show);
      FallbackGrows(required', items, complexity, lineThreshold, lineInfo, show);
      GrowsTransitive(required, required', Fallback(required', items, complexity, lineThreshold, lineInfo, show).0);
    }
  }

  /** The fallback search stops at the first entry below the threshold without adding anything for it. */
  lemma FallbackStopsBelowThreshold(required: map<int, seq<string>>, items: seq<LineComplexity>, complexity: real,
                                    lineThreshold: real, lineInfo: int -> LineInfo, show: real -> string)
    requires forall k :: 0 <= k < |items| ==> items[k].complexity < lineThreshold
    ensures Fallback(required, items, complexity, lineThreshold, lineInfo, show).0 == required
  {
  }

  /** The walker's state that the requirement search updates. */
  class CommentRequirements {
    var requiredCommentLines: map<int, seq<string>>

    constructor ()
      ensures requiredCommentLines == map[]
    {
      requiredCommentLines := map[];
    }

    /** Adds a requirement for the line `line` resolves to, unless a quality comment is near it. */
    method RequireCommentForLine(line: int, lineInfo: int -> LineInfo, failureMessage: Option<string>) returns (added: bool)
      modifies this
      ensures (added, requiredCommentLines) == Require(old(requiredCommentLines), lineInfo(line), failureMessage)
    {
      var info := lineInfo(line);
      if info.NoEnclosingNode? {
        return false;
      }
      var qualityCommentPresent := info.commented;
      if !qualityCommentPresent {
        var message := if failureMessage.Some? && failureMessage.value != "" then failureMessage.value
                       else DefaultRequirementMessage;
        if info.line in requiredCommentLines {
          requiredCommentLines := requiredCommentLines[info.line := requiredCommentLines[info.line] + [message]];
          return false;
        } else {
          requiredCommentLines := requiredCommentLines[info.line := [message]];
        }
        return true;
      }
      return false;
    }

    /** One try of the fallback search: true means stop. */
    method FindCommentRequirementLocation(complexity: real, lineComplexities: LineQueue, lineThreshold: real,
                                          lineInfo: int -> LineInfo, show: real -> string) returns (stop: bool)
      modifies this, lineComplexities
      ensures old(lineComplexities.items) == [] ==>
        (stop && requiredCommentLines == old(requiredCommentLines) && lineComplexities.items == [])
      ensures old(lineComplexities.items) != [] ==>
        var k := MaxIndex(old(lineComplexities.items));
        var highest := old(lineComplexities.items)[k];
        lineComplexities.items == RemoveAt(old(lineComplexities.items), k) &&
        (if highest.complexity < lineThreshold then stop && requiredCommentLines == old(requiredCommentLines)
         else
           (stop, requiredCommentLines) ==
           Require(old(requiredCommentLines), lineInfo(highest.line), Some(MostComplexReason(highest, complexity, show))))
    {
      var highestComplexity := lineComplexities.Dequeue();
      if highestComplexity.None? || highestComplexity.value.complexity < lineThreshold {
        return true;
      }
      var reason := "most complex: " + show(highestComplexity.value.complexity) + " - total: " + show(complexity);
      stop := RequireCommentForLine(highestComplexity.value.line, lineInfo, Some(reason));
    }

    /** Requires a comment at the section start, else at the most complex lines in turn, once the section is complex enough. */
    method EnforceCommentRequirementForSection(complexity: real, threshold: real, sectionStartLine: int,
                                               lineComplexities: LineQueue, lineThreshold: real,
                                               lineInfo: int -> LineInfo, show: real -> string) returns (r: bool)
      modifies this, lineComplexities
      ensures (r, requiredCommentLines, lineComplexities.items) ==
        Enforce(old(requiredCommentLines), old(lineComplexities.items), complexity, threshold, sectionStartLine,
                lineThreshold, lineInfo, show)
    {
      if complexity < threshold {
        return false;
      }
      var added := RequireCommentForLine(sectionStartLine, lineInfo, Some("sectionstart: " + show(complexity)));
      if !added {
        ghost var goal := Fallback(requiredCommentLines, lineComplexities.items, complexity, lineThreshold, lineInfo, show);
        var stop := false;
        while !stop
          invariant !stop ==> Fallback(requiredCommentLines, lineComplexities.items, complexity, lineThreshold, lineInfo, show) == goal
          invariant stop ==> (requiredCommentLines, lineComplexities.items) == goal
          decreases |lineComplexities.items| + (if stop then 0 else 1)
        {
          stop := FindCommentRequirementLocation(complexity, lineComplexities, lineThreshold, lineInfo, show);
        }
      }
      return true;
    }
  }
}
