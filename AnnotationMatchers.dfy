/**
 * Annotation comments: the comment lines that are linter directives
 * (`tslint:disable`, `tslint:enable-next-line` and the like).  The
 * directive expression belongs to the linter; it is a predicate parameter
 * here.
 */
module AnnotationMatchers {
  import opened Wrappers
  import opened Strings
  import opened SourceComments
  import TaskCommentMatchers

  /** The indices of the first `n` lines that are directives, in order. */
  function Matching(texts: seq<string>, isDirective: string -> bool, n: nat): (matched: seq<nat>)
    requires n <= |texts|
    ensures |matched| <= n && forall k :: 0 <= k < |matched| ==> matched[k] < n
  {
    if n == 0 then []
    else Matching(texts, isDirective, n - 1) + (if isDirective(texts[n - 1]) then [n - 1] else [])
  }

  /** A line index is matched iff that line is a directive; the indices increase. */
  lemma {:induction false} MatchingSpec(texts: seq<string>, isDirective: string -> bool, n: nat)
    requires n <= |texts|
    ensures forall i :: i in Matching(texts, isDirective, n) <==> 0 <= i < n && isDirective(texts[i])
    ensures forall k, l :: 0 <= k < l < |Matching(texts, isDirective, n)| ==>
      Matching(texts, isDirective, n)[k] < Matching(texts, isDirective, n)[l]
    decreases n
  {
    if n > 0 {
      MatchingSpec(texts, isDirective, n - 1);
    }
  }

  /** Every line matches iff as many indices as lines are matched. */
  lemma {:induction false} AllMatchIffFull(texts: seq<string>, isDirective: string -> bool, n: nat)
    requires n <= |texts|
    ensures |Matching(texts, isDirective, n)| == n <==> forall i :: 0 <= i < n ==> isDirective(texts[i])
    decreases n
  {
    if n > 0 {
      AllMatchIffFull(texts, isDirective, n - 1);
    }
  }

  /** The classification of a comment's sanitized lines. */
  function AnnotationClassifications(lines: seq<CommentPart>, isDirective: string -> bool): seq<Classification>
  {
    var texts := TaskCommentMatchers.LineTexts(lines);
    LineClassifications(Annotation, Matching(texts, isDirective, |lines|), |lines|)
  }

  /**
   * The three shapes: nothing iff no line is a directive; the whole comment
   * iff every line is one (and there is a line); otherwise the directive
   * lines.  At most one classification, always an Annotation.
   */
  lemma AnnotationShapes(lines: seq<CommentPart>, isDirective: string -> bool)
    ensures var r := AnnotationClassifications(lines, isDirective);
      |r| <= 1 &&
      (r == [] <==> forall i :: 0 <= i < |lines| ==> !isDirective(lines[i].text)) &&
      (r == [Classification(Annotation, None)] <==>
        |lines| > 0 && forall i :: 0 <= i < |lines| ==> isDirective(lines[i].text)) &&
      (forall c :: c in r ==> c.commentClass == Annotation)
  {
    NoDirectiveIffNothing(lines, isDirective);
    AllDirectivesIffWhole(lines, isDirective);
  }

  lemma NoDirectiveIffNothing(lines: seq<CommentPart>, isDirective: string -> bool)
    ensures Matching(TaskCommentMatchers.LineTexts(lines), isDirective, |lines|) == [] <==>
      forall i :: 0 <= i < |lines| ==> !isDirective(lines[i].text)
  {
    var texts := TaskCommentMatchers.LineTexts(lines);
    var matched := Matching(texts, isDirective, |lines|);
    MatchingSpec(texts, isDirective, |lines|);
    if matched != [] {
      assert matched[0] in matched;
      assert isDirective(lines[matched[0]].text);
    }
  }

  lemma AllDirectivesIffWhole(lines: seq<CommentPart>, isDirective: string -> bool)
    ensures |Matching(TaskCommentMatchers.LineTexts(lines), isDirective, |lines|)| == |lines| <==>
      forall i :: 0 <= i < |lines| ==> isDirective(lines[i].text)
  {
    var texts := TaskCommentMatchers.LineTexts(lines);
    AllMatchIffFull(texts, isDirective, |lines|);
  }

  /** `classify`: the directive lines of the comment, as nothing, the whole comment, or the line list. */
  method Classify(comment: SourceComment, strip: string -> string, isDirective: string -> bool)
    returns (r: seq<Classification>)
    requires KeepsLineCount(strip)
    ensures r == AnnotationClassifications(SanitizedLines(comment.parts, strip), isDirective)
  {
    var commentLines := comment.GetSanitizedCommentLines(strip);
    r := ClassifyLines(commentLines, isDirective);
  }

  /** The body of `classify` on the comment's sanitized lines. */
  method ClassifyLines(commentLines: seq<CommentPart>, isDirective: string -> bool) returns (r: seq<Classification>)
    ensures r == AnnotationClassifications(commentLines, isDirective)
  {
    ghost var texts := TaskCommentMatchers.LineTexts(commentLines);
    var matchedLines: seq<nat> := [];
    for lineIndex := 0 to |commentLines|
      invariant matchedLines == Matching(texts, isDirective, lineIndex)
    {
      if isDirective(commentLines[lineIndex].text) {
        matchedLines := matchedLines + [lineIndex];
      }
    }
    if |matchedLines| == 0 {
      return [];
    }
    if |matchedLines| != |commentLines| {
      return [Classification(Annotation, Some(matchedLines))];
    }
    return [Classification(Annotation, None)];
  }
}
