/**
 * A source comment made of one or more parts (consecutive line or block
 * comments merged into one), its classifications, and the views on it the
 * classifiers read: the complete text, the sanitized text and the
 * sanitized lines with their positions in the source file.
 *
 * Removing the comment start tokens is done by a regular expression with
 * multi-line semantics; it is a parameter here, of which the model only
 * requires that it does not add line breaks.
 */
module SourceComments {
  import opened Wrappers
  import opened Strings

  datatype CommentClass = Code | Task | Annotation | Unknown | Copyright | Header | Inline | Member

  /** A classification applies to the whole comment (`lines == None`) or to the listed line indices. */
  datatype Classification = Classification(commentClass: CommentClass, lines: Option<seq<nat>>)

  /**
   * The three result shapes of a line matcher: nothing when no line
   * matched, one whole-comment classification when every line did, and
   * otherwise one classification listing the matched lines.
   */
  function LineClassifications(commentClass: CommentClass, matched: seq<nat>, lineCount: nat): (r: seq<Classification>)
    ensures |r| <= 1 && (|r| == 0 <==> |matched| == 0)
    ensures |r| == 1 ==> r[0].commentClass == commentClass
    ensures |r| == 1 ==> (r[0].lines == None <==> |matched| == lineCount)
    ensures |r| == 1 && |matched| != lineCount ==> r[0].lines == Some(matched)
  {
    if |matched| == 0 then []
    else if |matched| == lineCount then [Classification(commentClass, None)]
    else [Classification(commentClass, Some(matched))]
  }

  /** A comment part: its text and where it lies in the source file. */
  datatype CommentPart = CommentPart(pos: int, end: int, text: string)

  /** A text transformation that never creates line breaks. */
  ghost predicate KeepsLineCount(strip: string -> string)
  {
    forall t :: CountChar(strip(t), '\n') <= CountChar(t, '\n')
  }

  // ---------------------------------------------------------------------
  // The complete comment

  function Texts(parts: seq<CommentPart>): (r: seq<string>)
    ensures |r| == |parts| && forall k :: 0 <= k < |parts| ==> r[k] == parts[k].text
  {
    seq(|parts|, k requires 0 <= k < |parts| => parts[k].text)
  }

  /** `getCompleteComment`: the parts' texts joined by line breaks, from the first part's start to the last part's end. */
  function CompleteComment(parts: seq<CommentPart>): (c: CommentPart)
    requires |parts| >= 1
    ensures c.pos == parts[0].pos && c.end == parts[|parts| - 1].end
  {
    CommentPart(parts[0].pos, parts[|parts| - 1].end, Join(Texts(parts), "\n"))
  }

  /** The lines of every part, part after part. */
  function PartTextLines(parts: seq<CommentPart>): seq<string>
  {
    if |parts| == 0 then [] else Split(parts[0].text, '\n') + PartTextLines(parts[1..])
  }

  /** The lines of the complete comment are the lines of its parts, in order. */
  lemma {:induction false} CompleteCommentLines(parts: seq<CommentPart>)
    requires |parts| >= 1
    ensures Split(CompleteComment(parts).text, '\n') == PartTextLines(parts)
    decreases |parts|
  {
    if |parts| == 1 {
    } else {
      CompleteCommentLines(parts[1..]);
      assert Texts(parts)[1..] == Texts(parts[1..]);
      SplitConcat(parts[0].text, Join(Texts(parts[1..]), "\n"), '\n');
    }
  }

  /** `getSanitizedCommentText`: the complete comment with stripped text; `pos` and `end` stay. */
  function SanitizedCommentText(parts: seq<CommentPart>, strip: string -> string): (c: CommentPart)
    requires |parts| >= 1
    ensures c.pos == CompleteComment(parts).pos && c.end == CompleteComment(parts).end
    ensures c.text == strip(CompleteComment(parts).text)
  {
    var complete := CompleteComment(parts);
    complete.(text := strip(complete.text))
  }

  // ---------------------------------------------------------------------
  // Sanitized lines

  /** Offset of line `i` within a text whose lines are `raw`: the earlier lines and their line breaks. */
  function LineStart(raw: seq<string>, i: nat): nat
    requires i <= |raw|
  {
    if i == 0 then 0 else LineStart(raw, i - 1) + |raw[i - 1]| + 1
  }

  /**
   * The sanitized lines of one part: line `i` holds the stripped text of
   * that line and spans the raw line `i`, counted from the part's start.
   */
  function PartLines(part: CommentPart, strip: string -> string): (lines: seq<CommentPart>)
    requires KeepsLineCount(strip)
    ensures |lines| == CountChar(strip(part.text), '\n') + 1
    ensures |lines| <= |Split(part.text, '\n')|
  {
    var clean := Split(strip(part.text), '\n');
    var raw := Split(part.text, '\n');
    SplitLength(strip(part.text), '\n');
    SplitLength(part.text, '\n');
    seq(|clean|, i requires 0 <= i < |clean| =>
      CommentPart(part.pos + LineStart(raw, i), part.pos + LineStart(raw, i) + |raw[i]|, clean[i]))
  }

  /** `getSanitizedCommentLines`: the per-part line lists, concatenated in part order. */
  function SanitizedLines(parts: seq<CommentPart>, strip: string -> string): seq<CommentPart>
    requires KeepsLineCount(strip)
  {
    if |parts| == 0 then [] else SanitizedLines(parts[..|parts| - 1], strip) + PartLines(parts[|parts| - 1], strip)
  }

  lemma {:induction false} LineStartShift(raw: seq<string>, i: nat)
    requires 1 <= i <= |raw|
    ensures LineStart(raw, i) == |raw[0]| + 1 + LineStart(raw[1..], i - 1)
    decreases i
  {
    if i > 1 {
      LineStartShift(raw, i - 1);
    }
  }

  /** Line `i` of joined lines sits at `LineStart(raw, i)`. */
  lemma {:induction false} JoinOffsets(raw: seq<string>, i: nat)
    requires i < |raw|
    ensures LineStart(raw, i) + |raw[i]| <= |Join(raw, "\n")|
    ensures Join(raw, "\n")[LineStart(raw, i)..LineStart(raw, i) + |raw[i]|] == raw[i]
    decreases i
  {
    if i == 0 {
      if |raw| > 1 {
        assert Join(raw, "\n") == raw[0] + ("\n" + Join(raw[1..], "\n"));
      }
    } else {
      JoinOffsets(raw[1..], i - 1);
      LineStartShift(raw, i);
      var tail := Join(raw[1..], "\n");
      assert Join(raw, "\n") == (raw[0] + "\n") + tail;
      var start := LineStart(raw, i);
      var inner := LineStart(raw[1..], i - 1);
      assert Join(raw, "\n")[start..start + |raw[i]|] == tail[inner..inner + |raw[i]|];
    }
  }

  /**
   * Every sanitized line of a part spans exactly its raw line: the part's
   * text between the line's `pos` and `end` (taken relative to the part's
   * start) is the unsanitized line.
   */
  lemma PartLineSpansRawLine(part: CommentPart, strip: string -> string, i: nat)
    requires KeepsLineCount(strip)
    requires i < |PartLines(part, strip)|
    ensures var line := PartLines(part, strip)[i];
      part.pos <= line.pos <= line.end <= part.pos + |part.text| &&
      part.text[line.pos - part.pos..line.end - part.pos] == Split(part.text, '\n')[i] &&
      line.text == Split(strip(part.text), '\n')[i]
  {
    var raw := Split(part.text, '\n');
    JoinOffsets(raw, i);
    JoinSplit(part.text, '\n');
  }

  /** A line starts one position after the end of the line before it (the removed line break). */
  lemma NextLineStart(part: CommentPart, strip: string -> string, i: nat)
    requires KeepsLineCount(strip)
    requires i + 1 < |PartLines(part, strip)|
    ensures PartLines(part, strip)[i + 1].pos == PartLines(part, strip)[i].end + 1
  {
  }

  /** The first line starts at the part's start; without stripping, the last ends at the part's end. */
  lemma LinesCoverPart(part: CommentPart)
    ensures var lines := PartLines(part, t => t);
      lines[0].pos == part.pos && lines[|lines| - 1].end == part.pos + |part.text|
  {
    var raw := Split(part.text, '\n');
    var n := |raw| - 1;
    JoinOffsets(raw, n);
    JoinSplit(part.text, '\n');
    JoinLength(raw, n);
  }

  /** The last line of joined lines ends the joined text. */
  lemma {:induction false} JoinLength(raw: seq<string>, n: nat)
    requires n + 1 == |raw|
    ensures |Join(raw, "\n")| == LineStart(raw, n) + |raw[n]|
    decreases n
  {
    if n > 0 {
      JoinLength(raw[1..], n - 1);
      LineStartShift(raw, n);
      assert raw[1..][n - 1] == raw[n];
      assert |Join(raw, "\n")| == |raw[0]| + 1 + |Join(raw[1..], "\n")|;
    }
  }

  // ---------------------------------------------------------------------
  // The comment object

  class SourceComment {
    var parts: seq<CommentPart>
    var classifications: seq<Classification>

    ghost predicate Valid()
      reads this
    {
      |parts| >= 1
    }

    /** A comment of one part; line breaks CR LF become LF. */
    constructor (pos: int, end: int, text: string)
      ensures Valid()
      ensures parts == [CommentPart(pos, end, NormalizeLineEnds(text))]
      ensures classifications == []
    {
      parts := [CommentPart(pos, end, NormalizeLineEnds(text))];
      classifications := [];
    }

    /** `addPart`: appends one part with normalised line breaks and leaves the earlier parts untouched. */
    method AddPart(pos: int, end: int, text: string)
      requires Valid()
      modifies this`parts
      ensures Valid()
      ensures parts == old(parts) + [CommentPart(pos, end, NormalizeLineEnds(text))]
    {
      parts := parts + [CommentPart(pos, end, NormalizeLineEnds(text))];
    }

    /** `getCommentParts`: the parts, of which there is always at least one. */
    method GetCommentParts() returns (r: seq<CommentPart>)
      requires Valid()
      ensures |r| >= 1 && r == parts
    {
      r := parts;
    }

    method GetCompleteComment() returns (c: CommentPart)
      requires Valid()
      ensures c == CompleteComment(parts)
    {
      var texts := [];
      for k := 0 to |parts|
        invariant texts == Texts(parts[..k])
      {
        assert Texts(parts[..k + 1]) == Texts(parts[..k]) + [parts[k].text];
        texts := texts + [parts[k].text];
      }
      assert parts[..|parts|] == parts;
      c := CommentPart(parts[0].pos, parts[|parts| - 1].end, Join(texts, "\n"));
    }

    method GetSanitizedCommentText(strip: string -> string) returns (c: CommentPart)
      requires Valid()
      ensures c == SanitizedCommentText(parts, strip)
    {
      c := GetCompleteComment();
      c := c.(text := strip(c.text));
    }

    /** The line loop with its running position, for every part in order. */
    method GetSanitizedCommentLines(strip: string -> string) returns (lines: seq<CommentPart>)
      requires KeepsLineCount(strip)
      ensures lines == SanitizedLines(parts, strip)
    {
      lines := [];
      for k := 0 to |parts|
        invariant lines == SanitizedLines(parts[..k], strip)
      {
        var part := parts[k];
        var partLines := SanitizeLines(part, strip);
        assert parts[..k + 1][..k] == parts[..k];
        lines := lines + partLines;
      }
      assert parts[..|parts|] == parts;
    }
  }

  /** One part's lines: the running position advances by each raw line's length and its line break. */
  method SanitizeLines(part: CommentPart, strip: string -> string) returns (lines: seq<CommentPart>)
    requires KeepsLineCount(strip)
    ensures lines == PartLines(part, strip)
  {
    var cleansedText := strip(part.text);
    var pos := part.pos;
    var unsanitizedLines := Split(part.text, '\n');
    var cleansedLines := Split(cleansedText, '\n');
    ghost var want := PartLines(part, strip);
    lines := [];
    for index := 0 to |cleansedLines|
      invariant pos == part.pos + LineStart(unsanitizedLines, index)
      invariant lines == want[..index]
    {
      var lineLength := |unsanitizedLines[index]|;
      lines := lines + [CommentPart(pos, pos + lineLength, cleansedLines[index])];
      pos := pos + |unsanitizedLines[index]| + 1;
    }
  }
}
