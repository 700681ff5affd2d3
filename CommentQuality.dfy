/**
 * Comment quality: a five-step scale that evaluations move up and down,
 * the ladder that decides whether a comment is evaluated at all, the
 * removal of commented-out code lines from a comment's text, the scoring
 * of word overlap between a comment and the code it documents, and the
 * scoring of a JSDoc comment's parameter descriptions.
 *
 * Word lists arrive already normalised (split, stop words removed,
 * singular infinitive forms, duplicates dropped, sorted): that work is
 * done by natural-language libraries outside the model.
 */
module CommentQuality {
  import opened Wrappers
  import opened Strings
  import SourceComments
  import Utils

  /** The quality scale: Unknown, Unhelpful, Low, Medium, High. */
  type Quality = q: int | 0 <= q <= 4

  const Unknown: Quality := 0
  const Unhelpful: Quality := 1
  const Low: Quality := 2
  const Medium: Quality := 3
  const High: Quality := 4

  const WordMatchThreshold: real := 0.5
  const ParameterWordMatchThreshold: real := 0.8

  function Min(a: int, b: int): int { if a < b then a else b }
  function Max(a: int, b: int): int { if a > b then a else b }

  /** `increaseQuality`: one step up, never past High. */
  function Increased(q: Quality): (r: Quality)
    ensures q <= r <= High
    ensures r == q <==> q == High
  {
    Min(q + 1, High)
  }

  /** `decreaseQuality`: one step down, never below Unhelpful; from Unknown it moves up to Unhelpful. */
  function Decreased(q: Quality): (r: Quality)
    ensures Unhelpful <= r
    ensures q != Unknown ==> r <= q && (r == q <==> q == Unhelpful)
    ensures q == Unknown ==> r == Unhelpful
  {
    Max(q - 1, Unhelpful)
  }

  /** Between Unhelpful and High the two steps undo each other. */
  lemma StepsUndo(q: Quality)
    ensures Unhelpful <= q < High ==> Decreased(Increased(q)) == q
    ensures Unhelpful < q <= High ==> Increased(Decreased(q)) == q
  {
  }

  class EvaluationResult {
    var quality: Quality
    var reasons: seq<string>

    constructor (quality: Quality, reasons: seq<string>)
      ensures this.quality == quality && this.reasons == reasons
    {
      this.quality := quality;
      this.reasons := reasons;
    }

    method IncreaseQuality()
      modifies this`quality
      ensures quality == Increased(old(quality))
    {
      quality := Min(quality + 1, High);
    }

    method DecreaseQuality()
      modifies this`quality
      ensures quality == Decreased(old(quality))
    {
      quality := Max(quality - 1, Unhelpful);
    }
  }

  // ---------------------------------------------------------------------
  // Which comments are evaluated

  /** Task, annotation and unknown comments are not evaluated. */
  predicate NonEvaluableClass(c: SourceComments.CommentClass)
  {
    c == SourceComments.Task || c == SourceComments.Annotation || c == SourceComments.Unknown
  }

  /** `classifications.find(...)` for a whole-comment classification whose class satisfies `p`. */
  predicate FindWhole(classifications: seq<SourceComments.Classification>, p: SourceComments.CommentClass -> bool)
  {
    exists k :: 0 <= k < |classifications| && classifications[k].lines == None && p(classifications[k].commentClass)
  }

  /** Where the evaluation goes: a fixed result, or the assessment against a declaration or a code section. */
  datatype Outcome = Evaluated(quality: Quality, reasons: seq<string>) | AssessDeclaration | AssessInline

  const CommentedOutCodeReason := "Code should not be commented out"

  /**
   * The early returns of `evaluateQuality`.  `nextNode` stands for the node
   * the comment is about (the first node on the comment's end line, else
   * the first node after it, a JSDoc node replaced by its parent): `None`
   * when there is none, otherwise whether it is a declaration.
   */
  function EvaluateQuality(classifications: seq<SourceComments.Classification>, nextNode: Option<bool>): (o: Outcome)
    ensures (exists c :: c in classifications && c.lines == None && NonEvaluableClass(c.commentClass))
      ==> o == Evaluated(Unknown, [])
    ensures (forall c :: c in classifications && c.lines == None ==> !NonEvaluableClass(c.commentClass)) &&
      (exists c :: c in classifications && c.lines == None && c.commentClass == SourceComments.Code)
      ==> o == Evaluated(Unhelpful, [CommentedOutCodeReason])
    ensures o == AssessDeclaration <==>
      (forall c :: c in classifications && c.lines == None ==>
        !NonEvaluableClass(c.commentClass) && c.commentClass != SourceComments.Code) &&
      nextNode == Some(true)
    ensures o == AssessInline <==>
      (forall c :: c in classifications && c.lines == None ==>
        !NonEvaluableClass(c.commentClass) && c.commentClass != SourceComments.Code) &&
      nextNode == Some(false)
    ensures ((forall c :: c in classifications && c.lines == None ==>
        !NonEvaluableClass(c.commentClass) && c.commentClass != SourceComments.Code) &&
      nextNode == None) ==> o == Evaluated(Unknown, [])
  {
    if FindWhole(classifications, NonEvaluableClass) then Evaluated(Unknown, [])
    else if FindWhole(classifications, c => c == SourceComments.Code) then
      Evaluated(Unhelpful, [CommentedOutCodeReason])
    else if nextNode == None then Evaluated(Unknown, [])
    else if nextNode.value then AssessDeclaration
    else AssessInline
  }

  // ---------------------------------------------------------------------
  // Removing commented-out code lines

  /** `lines.splice(index, 1)` for a non-negative index: the line at `index` goes, if there is one. */
  function Splice(lines: seq<string>, index: nat): seq<string>
  {
    if index < |lines| then lines[..index] + lines[index + 1..] else lines
  }

  /** The line at the index goes and the others keep their order; an index past the end changes nothing. */
  lemma SpliceSpec(lines: seq<string>, index: nat)
    ensures index < |lines| ==> |Splice(lines, index)| == |lines| - 1
    ensures index < |lines| ==> forall k :: 0 <= k < index ==> Splice(lines, index)[k] == lines[k]
    ensures index < |lines| ==> forall k :: index <= k < |lines| - 1 ==> Splice(lines, index)[k] == lines[k + 1]
    ensures index >= |lines| ==> Splice(lines, index) == lines
  {
  }

  /** The loop of `filterCodeLines`: splice out the listed indices, the last listed first. */
  function RemovedLines(lines: seq<string>, codeLines: seq<nat>): seq<string>
  {
    if |codeLines| == 0 then lines
    else RemovedLines(Splice(lines, codeLines[|codeLines| - 1]), codeLines[..|codeLines| - 1])
  }

  /** The reference: the lines whose index (counted from `base`) is not in `drop`, in order. */
  function KeptLines(lines: seq<string>, drop: set<nat>, base: nat): seq<string>
  {
    if |lines| == 0 then []
    else (if base in drop then [] else [lines[0]]) + KeptLines(lines[1..], drop, base + 1)
  }

  lemma {:induction false} KeptAll(lines: seq<string>, drop: set<nat>, base: nat)
    requires forall d :: d in drop ==> d < base
    ensures KeptLines(lines, drop, base) == lines
    decreases |lines|
  {
    if |lines| > 0 {
      KeptAll(lines[1..], drop, base + 1);
    }
  }

  /** Splicing out line `x` is keeping everything but `x`, when everything else dropped lies before `x`. */
  lemma {:induction false} KeptSplice(lines: seq<string>, drop: set<nat>, base: nat, x: nat)
    requires x < |lines|
    requires forall d :: d in drop ==> d < base + x
    ensures KeptLines(Splice(lines, x), drop, base) == KeptLines(lines, drop + {base + x}, base)
    decreases x
  {
    if x == 0 {
      assert Splice(lines, 0) == lines[1..];
      KeptAll(lines[1..], drop, base);
      KeptAll(lines[1..], drop + {base}, base + 1);
    } else {
      var rest := lines[1..];
      KeptSplice(rest, drop, base + 1, x - 1);
      assert lines[..x] == [lines[0]] + rest[..x - 1];
      assert lines[x + 1..] == rest[x..];
      var spliced := Splice(lines, x);
      assert spliced == [lines[0]] + Splice(rest, x - 1);
      assert spliced[0] == lines[0] && spliced[1..] == Splice(rest, x - 1);
    }
  }

  predicate Ascending(s: seq<nat>)
  {
    forall k, j :: 0 <= k < j < |s| ==> s[k] < s[j]
  }

  /** The listed indices as a set. */
  function IndexSet(s: seq<nat>): (r: set<nat>)
    ensures forall k :: k in r <==> k in s
  {
    set k | k in s
  }

  /** For ascending indices within the text, the loop removes exactly the listed lines and keeps the rest in order. */
  lemma {:induction false} RemovedAscending(lines: seq<string>, codeLines: seq<nat>)
    requires Ascending(codeLines)
    requires forall k :: 0 <= k < |codeLines| ==> codeLines[k] < |lines|
    ensures RemovedLines(lines, codeLines) == KeptLines(lines, IndexSet(codeLines), 0)
    decreases |codeLines|
  {
    if |codeLines| == 0 {
      assert IndexSet(codeLines) == {};
      KeptAll(lines, {}, 0);
    } else {
      var n := |codeLines| - 1;
      assert forall k :: 0 <= k < n ==> codeLines[..n][k] < codeLines[n];
      RemovedAscending(Splice(lines, codeLines[n]), codeLines[..n]);
      RemovedLast(lines, codeLines);
    }
  }

  /** The step of `RemovedAscending`: splicing out the last listed index first. */
  lemma RemovedLast(lines: seq<string>, codeLines: seq<nat>)
    requires |codeLines| > 0 && Ascending(codeLines)
    requires forall k :: 0 <= k < |codeLines| ==> codeLines[k] < |lines|
    requires var n := |codeLines| - 1;
      RemovedLines(Splice(lines, codeLines[n]), codeLines[..n]) ==
      KeptLines(Splice(lines, codeLines[n]), IndexSet(codeLines[..n]), 0)
    ensures RemovedLines(lines, codeLines) == KeptLines(lines, IndexSet(codeLines), 0)
  {
    var n := |codeLines| - 1;
    var x := codeLines[n];
    var front := codeLines[..n];
    var frontSet := IndexSet(front);
    calc {
      RemovedLines(lines, codeLines);
      RemovedLines(Splice(lines, x), front);
      KeptLines(Splice(lines, x), frontSet, 0);
      { FrontBelowLast(codeLines, frontSet); KeptSplice(lines, frontSet, 0, x); }
      KeptLines(lines, frontSet + {x}, 0);
      { IndexSetSnoc(codeLines); }
      KeptLines(lines, IndexSet(codeLines), 0);
    }
  }

  lemma FrontBelowLast(codeLines: seq<nat>, frontSet: set<nat>)
    requires |codeLines| > 0 && Ascending(codeLines)
    requires frontSet == IndexSet(codeLines[..|codeLines| - 1])
    ensures forall d :: d in frontSet ==> d < codeLines[|codeLines| - 1]
  {
    var n := |codeLines| - 1;
    forall d | d in frontSet ensures d < codeLines[n] {
      var k :| 0 <= k < n && codeLines[..n][k] == d;
      assert codeLines[k] < codeLines[n];
    }
  }

  lemma IndexSetSnoc(codeLines: seq<nat>)
    requires |codeLines| > 0
    ensures IndexSet(codeLines) == IndexSet(codeLines[..|codeLines| - 1]) + {codeLines[|codeLines| - 1]}
  {
    var n := |codeLines| - 1;
    assert codeLines == codeLines[..n] + [codeLines[n]];
  }

  /** The classifications of class Code, in order. */
  function CodeClassifications(classifications: seq<SourceComments.Classification>): (r: seq<SourceComments.Classification>)
    ensures forall c :: c in r <==> c in classifications && c.commentClass == SourceComments.Code
  {
    if |classifications| == 0 then []
    else
      var last := classifications[|classifications| - 1];
      CodeClassifications(classifications[..|classifications| - 1]) +
        (if last.commentClass == SourceComments.Code then [last] else [])
  }

  /** The line lists of classifications that all have one. */
  function LineLists(classifications: seq<SourceComments.Classification>): (r: seq<seq<nat>>)
    requires forall c :: c in classifications ==> c.lines != None
    ensures |r| == |classifications|
  {
    seq(|classifications|, k requires 0 <= k < |classifications| => classifications[k].lines.value)
  }

  /** Code classifications reaching here list their lines: a whole-comment one was turned away before. */
  predicate CodeHasLines(classifications: seq<SourceComments.Classification>)
  {
    forall c :: c in classifications && c.commentClass == SourceComments.Code ==> c.lines != None
  }

  /** The text `filterCodeLines` returns. */
  function FilteredText(text: string, classifications: seq<SourceComments.Classification>): string
    requires CodeHasLines(classifications)
  {
    var code := CodeClassifications(classifications);
    if |code| > 0 then Join(RemovedLines(Split(text, '\n'), Utils.Flatten<nat>(LineLists(code))), "\n")
    else text
  }

  /** `filterCodeLines`: the comment text without the lines classified as code. */
  method FilterCodeLines(text: string, classifications: seq<SourceComments.Classification>) returns (r: string)
    requires CodeHasLines(classifications)
    ensures r == FilteredText(text, classifications)
  {
    r := text;
    var codeClassifications := CodeClassifications(classifications);
    if |codeClassifications| > 0 {
      var codeLines := Utils.Flatten<nat>(LineLists(codeClassifications));
      var lines := Split(text, '\n');
      var i := |codeLines|;
      assert codeLines[..i] == codeLines;
      while i > 0
        invariant 0 <= i <= |codeLines|
        invariant RemovedLines(Split(text, '\n'), codeLines) == RemovedLines(lines, codeLines[..i])
      {
        assert codeLines[..i][..i - 1] == codeLines[..i - 1];
        lines := Splice(lines, codeLines[i - 1]);
        i := i - 1;
      }
      r := Join(lines, "\n");
    }
  }

  /**
   * With the code lines listed in ascending order, the filtered text is
   * the text's other lines, in order; without code classifications it is
   * the text itself.
   */
  lemma FilteredTextKeepsOtherLines(text: string, classifications: seq<SourceComments.Classification>)
    requires CodeHasLines(classifications)
    requires var code := CodeClassifications(classifications);
      |code| > 0 ==>
        var codeLines := Utils.Flatten<nat>(LineLists(code));
        Ascending(codeLines) && forall k :: 0 <= k < |codeLines| ==> codeLines[k] < |Split(text, '\n')|
    ensures var code := CodeClassifications(classifications);
      FilteredText(text, classifications) ==
        if |code| == 0 then text
        else Join(KeptLines(Split(text, '\n'), IndexSet(Utils.Flatten<nat>(LineLists(code))), 0), "\n")
  {
    var code := CodeClassifications(classifications);
    if |code| > 0 {
      RemovedAscending(Split(text, '\n'), Utils.Flatten<nat>(LineLists(code)));
    }
  }

  // ---------------------------------------------------------------------
  // Word overlap

  /** The one change `evaluateContentOverlap` makes to a result. */
  datatype Adjustment = Lower | LowerWith(reason: string) | SetUnknown(reason: string) | Raise

  const NoWordingReason := "Could not create english wording for commented code"
  const NoRelationReason := "No relation between comment and code could be found"
  const TooMuchOverlapReason := "Too much overlap between comment and code"

  /** The share of `total` words that are common. */
  function Coverage(common: nat, total: nat): real
    requires total > 0
  {
    common as real / total as real
  }

  /** The comment adds nothing: its coverage reaches its threshold, and so does the name's if it has one. */
  predicate TooMuchOverlap(commentCoverage: real, nameCoverage: real, commentThreshold: real, nameThreshold: Option<real>)
  {
    commentCoverage >= commentThreshold && (nameThreshold == None || nameCoverage >= nameThreshold.value)
  }

  /** The decision of `evaluateContentOverlap` on the normalised comment words and name words. */
  function OverlapAdjustment(commentWords: seq<string>, nameWords: seq<string>,
                             commentThreshold: real, nameThreshold: Option<real>): Adjustment
  {
    if |commentWords| == 0 then Lower
    else if |nameWords| == 0 then SetUnknown(NoWordingReason)
    else
      var common := |Utils.Intersection(nameWords, commentWords, 0, 0)|;
      if common == 0 then LowerWith(NoRelationReason)
      else if TooMuchOverlap(Coverage(common, |commentWords|), Coverage(common, |nameWords|), commentThreshold, nameThreshold)
      then LowerWith(TooMuchOverlapReason)
      else Raise
  }

  function AdjustedQuality(q: Quality, a: Adjustment): Quality
  {
    match a
    case Lower => Decreased(q)
    case LowerWith(_) => Decreased(q)
    case SetUnknown(_) => Unknown
    case Raise => Increased(q)
  }

  function AdjustedReasons(reasons: seq<string>, a: Adjustment): seq<string>
  {
    match a
    case Lower => reasons
    case LowerWith(reason) => reasons + [reason]
    case SetUnknown(reason) => reasons + [reason]
    case Raise => reasons
  }

  /**
   * For duplicate-free sorted word lists, the comment and the code are
   * found unrelated exactly when both have words and share none.
   */
  lemma NoRelationIffDisjoint(commentWords: seq<string>, nameWords: seq<string>,
                              commentThreshold: real, nameThreshold: Option<real>)
    requires Utils.StrictlySorted(commentWords) && Utils.StrictlySorted(nameWords)
    ensures OverlapAdjustment(commentWords, nameWords, commentThreshold, nameThreshold) == LowerWith(NoRelationReason)
      <==> |commentWords| > 0 && |nameWords| > 0 && forall w :: w in commentWords ==> w !in nameWords
  {
    Utils.IntersectionSize(nameWords, commentWords);
    var shared := (set x | x in nameWords) * (set x | x in commentWords);
    if |commentWords| > 0 && |nameWords| > 0 && exists w :: w in commentWords && w in nameWords {
      var w :| w in commentWords && w in nameWords;
      assert w in shared;
    }
    if |shared| > 0 {
      var w :| w in shared;
    }
  }

  /** The coverages are shares: above zero and at most one once a word is shared. */
  lemma CoveragesAreShares(commentWords: seq<string>, nameWords: seq<string>)
    requires |commentWords| > 0 && |nameWords| > 0
    requires |Utils.Intersection(nameWords, commentWords, 0, 0)| > 0
    ensures var common := |Utils.Intersection(nameWords, commentWords, 0, 0)|;
      0.0 < Coverage(common, |commentWords|) <= 1.0 && 0.0 < Coverage(common, |nameWords|) <= 1.0
  {
    var common := |Utils.Intersection(nameWords, commentWords, 0, 0)|;
    ShareAtMostOne(common, |commentWords|);
    ShareAtMostOne(common, |nameWords|);
  }

  lemma ShareAtMostOne(common: nat, total: nat)
    requires 0 < common <= total
    ensures 0.0 < Coverage(common, total) <= 1.0
  {
    assert common as real <= total as real;
  }

  /** A comment whose words are exactly the name's words is penalised for overlap at any threshold up to one. */
  lemma RepeatingTheNameIsTooMuch(words: seq<string>, commentThreshold: real, nameThreshold: Option<real>)
    requires |words| > 0
    requires commentThreshold <= 1.0 && (nameThreshold == None || nameThreshold.value <= 1.0)
    ensures OverlapAdjustment(words, words, commentThreshold, nameThreshold) == LowerWith(TooMuchOverlapReason)
  {
    Utils.IntersectionWithItself(words, 0);
    assert words[0..] == words;
    assert Coverage(|words|, |words|) == 1.0;
  }

  /**
   * `evaluateContentOverlap`: exactly one adjustment: lower without a
   * reason for a comment without words, Unknown with a reason for a name
   * without words, lower with a reason when nothing or too much is shared,
   * raise otherwise.
   */
  method EvaluateContentOverlap(evaluationResult: EvaluationResult, usefulCommentParts: seq<string>, nameParts: seq<string>,
                                commentCoverageThreshold: real, nameCoverageThreshold: Option<real>)
    modifies evaluationResult
    ensures var a := OverlapAdjustment(usefulCommentParts, nameParts, commentCoverageThreshold, nameCoverageThreshold);
      evaluationResult.quality == AdjustedQuality(old(evaluationResult.quality), a) &&
      evaluationResult.reasons == AdjustedReasons(old(evaluationResult.reasons), a)
  {
    if |usefulCommentParts| == 0 {
      evaluationResult.DecreaseQuality();
      return;
    }
    if |nameParts| == 0 {
      evaluationResult.quality := Unknown;
      evaluationResult.reasons := evaluationResult.reasons + [NoWordingReason];
      return;
    }
    var intersection := Utils.GetIntersection(nameParts, usefulCommentParts);
    var nameCoverage := |intersection| as real / |nameParts| as real;
    var commentCoverage := |intersection| as real / |usefulCommentParts| as real;
    if |intersection| == 0 {
      evaluationResult.reasons := evaluationResult.reasons + [NoRelationReason];
      evaluationResult.DecreaseQuality();
      return;
    }
    if commentCoverage >= commentCoverageThreshold &&
       (nameCoverageThreshold == None || nameCoverage >= nameCoverageThreshold.value) {
      evaluationResult.reasons := evaluationResult.reasons + [TooMuchOverlapReason];
      evaluationResult.DecreaseQuality();
      return;
    }
    evaluationResult.IncreaseQuality();
  }

  // ---------------------------------------------------------------------
  // JSDoc parameter descriptions

  /**
   * A parameter of the documented function: its name, the text of its
   * `@param` tag if it has one, and the normalised words of that text and
   * of the name.
   */
  datatype Parameter = Parameter(name: string, comment: Option<string>, commentWords: seq<string>, nameWords: seq<string>)

  /** A parameter counts as described unless its tag is missing or empty (both are falsy). */
  predicate Described(p: Parameter)
  {
    p.comment != None && p.comment.value != ""
  }

  /** `assessParamCommentQuality`: overlap scoring from Medium; a low result names the parameter in its last reason. */
  function ParameterAssessment(p: Parameter): (r: (Quality, seq<string>))
    ensures |r.1| <= 1
  {
    var a := OverlapAdjustment(p.commentWords, p.nameWords, ParameterWordMatchThreshold, None);
    var q := AdjustedQuality(Medium, a);
    var reasons := AdjustedReasons([], a);
    if q < Medium && |reasons| > 0 then (q, reasons[..|reasons| - 1] + [reasons[|reasons| - 1] + ": " + p.name])
    else (q, reasons)
  }

  /**
   * A comment that only repeats the parameter's name is Low, with the
   * overlap reason naming the parameter.
   */
  lemma RepeatingTheParameterNameIsLow(p: Parameter)
    requires |p.nameWords| > 0 && p.commentWords == p.nameWords
    ensures ParameterAssessment(p) == (Low, [TooMuchOverlapReason + ": " + p.name])
  {
    RepeatingTheNameIsTooMuch(p.nameWords, ParameterWordMatchThreshold, None);
    var a := OverlapAdjustment(p.commentWords, p.nameWords, ParameterWordMatchThreshold, None);
    assert AdjustedQuality(Medium, a) == Low;
    var reasons := AdjustedReasons([], a);
    assert reasons == [TooMuchOverlapReason];
    assert reasons[..0] + [reasons[0] + ": " + p.name] == [TooMuchOverlapReason + ": " + p.name];
  }

  method AssessParamCommentQuality(p: Parameter) returns (result: EvaluationResult)
    ensures fresh(result)
    ensures (result.quality, result.reasons) == ParameterAssessment(p)
  {
    result := new EvaluationResult(Medium, []);
    EvaluateContentOverlap(result, p.commentWords, p.nameWords, ParameterWordMatchThreshold, None);
    if result.quality < Medium && |result.reasons| > 0 {
      var last := |result.reasons| - 1;
      result.reasons := result.reasons[..last] + [result.reasons[last] + ": " + p.name];
    }
  }

  const MissingExplanationReason := "Missing explanation for parameter: "

  /** The parameter loop's state. */
  datatype JSDocState = JSDocState(quality: Quality, reasons: seq<string>, parameterCount: nat,
                                   commentedParameterCount: nat, lowQualityCommentParameterCount: int)

  /** The parameter loop over the first `n` parameters, as the source runs it. */
  function JSDocScan(quality: Quality, reasons: seq<string>, params: seq<Parameter>, n: nat): (s: JSDocState)
    requires n <= |params|
    ensures s.parameterCount == n && s.commentedParameterCount <= n
  {
    if n == 0 then JSDocState(quality, reasons, 0, 0, 0)
    else
      var s := JSDocScan(quality, reasons, params, n - 1);
      var p := params[n - 1];
      if !Described(p) then
        s.(quality := Decreased(s.quality), reasons := s.reasons + [MissingExplanationReason + p.name],
           parameterCount := n)
      else
        var (pq, pr) := ParameterAssessment(p);
        if pq < Medium then
          s.(reasons := s.reasons + pr, parameterCount := n, commentedParameterCount := s.commentedParameterCount + 1,
             lowQualityCommentParameterCount := s.lowQualityCommentParameterCount + (Medium - pq))
        else
          s.(parameterCount := n, commentedParameterCount := s.commentedParameterCount + 1,
             lowQualityCommentParameterCount := s.lowQualityCommentParameterCount - (pq - Medium))
  }

  /** The closing adjustment after the loop. */
  function JSDocFinalQuality(s: JSDocState): Quality
  {
    if s.parameterCount > 0 then
      var q := if s.lowQualityCommentParameterCount >= s.commentedParameterCount then Decreased(s.quality)
               else if s.lowQualityCommentParameterCount < 0 then Increased(s.quality)
               else s.quality;
      if s.commentedParameterCount < s.parameterCount then Decreased(q) else q
    else s.quality
  }

  /** The number of described parameters among the first `n`. */
  function DescribedCount(params: seq<Parameter>, n: nat): nat
    requires n <= |params|
  {
    if n == 0 then 0 else DescribedCount(params, n - 1) + (if Described(params[n - 1]) then 1 else 0)
  }

  /** The loop counts every parameter and every described one. */
  lemma {:induction false} JSDocCounts(quality: Quality, reasons: seq<string>, params: seq<Parameter>, n: nat)
    requires n <= |params|
    ensures JSDocScan(quality, reasons, params, n).commentedParameterCount == DescribedCount(params, n)
    ensures |JSDocScan(quality, reasons, params, n).reasons| >= |reasons| + (n - DescribedCount(params, n))
    decreases n
  {
    if n > 0 {
      JSDocCounts(quality, reasons, params, n - 1);
    }
  }

  /** No parameters, no change. */
  lemma NoParametersNoChange(quality: Quality, reasons: seq<string>)
    ensures JSDocScan(quality, reasons, [], 0) == JSDocState(quality, reasons, 0, 0, 0)
    ensures JSDocFinalQuality(JSDocScan(quality, reasons, [], 0)) == quality
  {
  }

  /** Undescribed parameters each lower the quality once, then the closing adjustment lowers it twice more. */
  lemma {:induction false} AllUndescribed(quality: Quality, reasons: seq<string>, params: seq<Parameter>, n: nat)
    requires quality >= Unhelpful && n <= |params|
    requires forall k :: 0 <= k < n ==> !Described(params[k])
    ensures JSDocScan(quality, reasons, params, n).quality == Max(quality - n, Unhelpful)
    ensures JSDocScan(quality, reasons, params, n).lowQualityCommentParameterCount == 0
    ensures JSDocScan(quality, reasons, params, n).commentedParameterCount == 0
    ensures n > 0 ==> JSDocFinalQuality(JSDocScan(quality, reasons, params, n)) == Max(quality - n - 2, Unhelpful)
    decreases n
  {
    if n > 0 {
      AllUndescribed(quality, reasons, params, n - 1);
    }
  }

  /** Parameters all described at High quality raise the result once. */
  lemma {:induction false} AllDescribedWell(quality: Quality, reasons: seq<string>, params: seq<Parameter>, n: nat)
    requires n <= |params|
    requires forall k :: 0 <= k < n ==> Described(params[k]) && ParameterAssessment(params[k]).0 == High
    ensures JSDocScan(quality, reasons, params, n) == JSDocState(quality, reasons, n, n, -(n as int))
    ensures n > 0 ==> JSDocFinalQuality(JSDocScan(quality, reasons, params, n)) == Increased(quality)
    decreases n
  {
    if n > 0 {
      AllDescribedWell(quality, reasons, params, n - 1);
    }
  }

  /** `assessJSDocComment`: the parameter loop and the closing adjustment. */
  method AssessJSDocComment(params: seq<Parameter>, evaluationResult: EvaluationResult)
    modifies evaluationResult
    ensures var s := JSDocScan(old(evaluationResult.quality), old(evaluationResult.reasons), params, |params|);
      evaluationResult.quality == JSDocFinalQuality(s) && evaluationResult.reasons == s.reasons
  {
    ghost var quality0 := evaluationResult.quality;
    ghost var reasons0 := evaluationResult.reasons;
    var commentedParameterCount: nat := 0;
    var lowQualityCommentParameterCount := 0;
    var parameterCount: nat := 0;
    for k := 0 to |params|
      invariant JSDocScan(quality0, reasons0, params, k) ==
        JSDocState(evaluationResult.quality, evaluationResult.reasons, parameterCount,
                   commentedParameterCount, lowQualityCommentParameterCount)
    {
      parameterCount, commentedParameterCount, lowQualityCommentParameterCount :=
        AssessParameter(params, k, evaluationResult, quality0, reasons0,
                        parameterCount, commentedParameterCount, lowQualityCommentParameterCount);
    }
    if parameterCount > 0 {
      if lowQualityCommentParameterCount >= commentedParameterCount {
        evaluationResult.DecreaseQuality();
      } else if lowQualityCommentParameterCount < 0 {
        evaluationResult.IncreaseQuality();
      }
      if commentedParameterCount < parameterCount {
        evaluationResult.DecreaseQuality();
      }
    }
  }

  /** One turn of the parameter loop: the counters and the result move on by one parameter. */
  method AssessParameter(params: seq<Parameter>, k: nat, evaluationResult: EvaluationResult,
                         ghost quality0: Quality, ghost reasons0: seq<string>,
                         parameterCount: nat, commentedParameterCount: nat, lowQualityCommentParameterCount: int)
    returns (parameterCount': nat, commentedParameterCount': nat, lowQualityCommentParameterCount': int)
    requires k < |params|
    requires JSDocScan(quality0, reasons0, params, k) ==
      JSDocState(evaluationResult.quality, evaluationResult.reasons, parameterCount,
                 commentedParameterCount, lowQualityCommentParameterCount)
    modifies evaluationResult
    ensures JSDocScan(quality0, reasons0, params, k + 1) ==
      JSDocState(evaluationResult.quality, evaluationResult.reasons, parameterCount',
                 commentedParameterCount', lowQualityCommentParameterCount')
  {
    var child := params[k];
    parameterCount' := parameterCount + 1;
    commentedParameterCount' := commentedParameterCount;
    lowQualityCommentParameterCount' := lowQualityCommentParameterCount;
    if !Described(child) {
      evaluationResult.DecreaseQuality();
      var failureReason := MissingExplanationReason + child.name;
      evaluationResult.reasons := evaluationResult.reasons + [failureReason];
      return;
    }
    commentedParameterCount' := commentedParameterCount + 1;
    var parameterQuality := AssessParamCommentQuality(child);
    if parameterQuality.quality < Medium {
      lowQualityCommentParameterCount' := lowQualityCommentParameterCount + (Medium - parameterQuality.quality);
      evaluationResult.reasons := evaluationResult.reasons + parameterQuality.reasons;
    } else {
      lowQualityCommentParameterCount' := lowQualityCommentParameterCount - (parameterQuality.quality - Medium);
    }
  }
}
