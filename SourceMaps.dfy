/**
 * The source map's line index and the merging of the file's comments into
 * multi-part source comments.  The compiler's comment scanner and its
 * position-to-line conversion are outside the model: each comment arrives
 * as a range with its text and the lines of its start and end.
 */
module SourceMaps {
  import opened Wrappers
  import opened Strings
  import opened SourceComments

  /** One comment the scanner reports, with the lines of its start and end position. */
  datatype CommentRange = CommentRange(pos: int, end: int, startLine: nat, endLine: nat, text: string)

  // ---------------------------------------------------------------------
  // Merging comments on consecutive lines

  /** What happens to a comment: it opens a group, joins the last group, or is left out. */
  datatype Fate = NewGroup | Appended | Dropped

  /**
   * The rule for comment `i`, stated on its neighbour: the first comment
   * and a comment starting more than one line after the previous comment's
   * end line open a group; one starting on the very next line joins the
   * last group; one starting on or before that end line is dropped.
   */
  function FateOf(comments: seq<CommentRange>, i: nat): Fate
    requires i < |comments|
  {
    if i == 0 || comments[i].startLine > comments[i - 1].endLine + 1 then NewGroup
    else if comments[i].startLine == comments[i - 1].endLine + 1 then Appended
    else Dropped
  }

  /**
   * The merge loop's state: the groups as comment indices, the parts of
   * the source comment made for each group, and `previousCommentEndLine`.
   */
  datatype MergeState = MergeState(groups: seq<seq<nat>>, parts: seq<seq<CommentPart>>, previousEndLine: int)

  /** The part a comment becomes: its range and its text with normalised line breaks. */
  function PartOf(c: CommentRange): (p: CommentPart)
    ensures p.pos == c.pos && p.end == c.end && p.text == NormalizeLineEnds(c.text)
  {
    CommentPart(c.pos, c.end, NormalizeLineEnds(c.text))
  }

  /** One turn of the merge loop: comment `c`, at index `i`, opens a group, joins the last one or is dropped. */
  function MergeTurn(s: MergeState, c: CommentRange, i: nat): MergeState
  {
    if s.previousEndLine == -1 || c.startLine > s.previousEndLine + 1 then
      MergeState(s.groups + [[i]], s.parts + [[PartOf(c)]], c.endLine)
    else if c.startLine == s.previousEndLine + 1 && |s.groups| > 0 && |s.parts| > 0 then
      var last := |s.groups| - 1;
      var lastPart := |s.parts| - 1;
      MergeState(s.groups[..last] + [s.groups[last] + [i]], s.parts[..lastPart] + [s.parts[lastPart] + [PartOf(c)]], c.endLine)
    else
      MergeState(s.groups, s.parts, c.endLine)
  }

  /** The merge loop over the first `n` comments, as the source runs it. */
  function Merge(comments: seq<CommentRange>, n: nat): (s: MergeState)
    requires n <= |comments|
    ensures s.previousEndLine == if n == 0 then -1 else comments[n - 1].endLine
    ensures n > 0 <==> |s.groups| > 0
    ensures |s.parts| == |s.groups|
    ensures forall k :: 0 <= k < |s.groups| ==> |s.groups[k]| > 0
    ensures IndicesBelow(s.groups, n)
  {
    if n == 0 then MergeState([], [], -1)
    else
      var s := Merge(comments, n - 1);
      var c := comments[n - 1];
      if s.previousEndLine == -1 || c.startLine > s.previousEndLine + 1 then
        MergeState(s.groups + [[n - 1]], s.parts + [[PartOf(c)]], c.endLine)
      else if c.startLine == s.previousEndLine + 1 then
        var last := |s.groups| - 1;
        MergeState(s.groups[..last] + [s.groups[last] + [n - 1]], s.parts[..last] + [s.parts[last] + [PartOf(c)]], c.endLine)
      else
        MergeState(s.groups, s.parts, c.endLine)
  }

  ghost predicate IndicesBelow(groups: seq<seq<nat>>, n: nat)
  {
    forall k, j :: 0 <= k < |groups| && 0 <= j < |groups[k]| ==> groups[k][j] < n
  }

  /** The indices of the comments that are not dropped, in order. */
  function Kept(comments: seq<CommentRange>, n: nat): seq<nat>
    requires n <= |comments|
  {
    if n == 0 then []
    else Kept(comments, n - 1) + (if FateOf(comments, n - 1) == Dropped then [] else [n - 1])
  }

  /** The groups' indices one after another. */
  function Concat(groups: seq<seq<nat>>): seq<nat>
  {
    if |groups| == 0 then [] else Concat(groups[..|groups| - 1]) + groups[|groups| - 1]
  }

  /** The merged groups, flattened, are exactly the comments that are not dropped, in order. */
  lemma {:induction false} MergeKeeps(comments: seq<CommentRange>, n: nat)
    requires n <= |comments|
    ensures Concat(Merge(comments, n).groups) == Kept(comments, n)
    decreases n
  {
    if n > 0 {
      MergeKeeps(comments, n - 1);
      MergeStep(comments, n);
      var s := Merge(comments, n - 1).groups;
      var t := Merge(comments, n).groups;
      var fate := FateOf(comments, n - 1);
      assert Kept(comments, n) == Kept(comments, n - 1) + (if fate == Dropped then [] else [n - 1]);
      if fate == NewGroup {
        ConcatAppend(s, [n - 1]);
      } else if fate == Appended {
        ConcatExtendLast(s, n - 1);
      }
    }
  }

  /** One step of the merge, by the fate of the comment read. */
  lemma MergeStep(comments: seq<CommentRange>, n: nat)
    requires 0 < n <= |comments|
    ensures var s := Merge(comments, n - 1);
      match FateOf(comments, n - 1)
      case NewGroup => Merge(comments, n).groups == s.groups + [[n - 1]]
      case Appended => |s.groups| > 0 &&
        Merge(comments, n).groups == s.groups[..|s.groups| - 1] + [s.groups[|s.groups| - 1] + [n - 1]]
      case Dropped => Merge(comments, n).groups == s.groups
  {
  }

  /** A turn of the loop is one step of the merge. */
  lemma MergeIsTurns(comments: seq<CommentRange>, n: nat)
    requires 0 < n <= |comments|
    ensures Merge(comments, n) == MergeTurn(Merge(comments, n - 1), comments[n - 1], n - 1)
  {
  }

  lemma ConcatExtendLast(groups: seq<seq<nat>>, x: nat)
    requires |groups| > 0
    ensures Concat(groups[..|groups| - 1] + [groups[|groups| - 1] + [x]]) == Concat(groups) + [x]
  {
    var front := groups[..|groups| - 1];
    var g := groups[|groups| - 1];
    assert Concat(groups) == Concat(front) + g;
    ConcatAppend(front, g + [x]);
    assert Concat(front) + (g + [x]) == (Concat(front) + g) + [x];
  }

  lemma ConcatAppend(groups: seq<seq<nat>>, g: seq<nat>)
    ensures Concat(groups + [g]) == Concat(groups) + g
  {
    assert (groups + [g])[..|groups|] == groups;
  }

  /** Every group starts with a comment that opens one and continues with comments that join it. */
  lemma {:induction false} MergeFates(comments: seq<CommentRange>, n: nat)
    requires n <= |comments|
    ensures forall k, j :: 0 <= k < |Merge(comments, n).groups| && 0 <= j < |Merge(comments, n).groups[k]| ==>
      Merge(comments, n).groups[k][j] < n &&
      FateOf(comments, Merge(comments, n).groups[k][j]) == if j == 0 then NewGroup else Appended
    decreases n
  {
    if n > 0 {
      MergeFates(comments, n - 1);
      var s := Merge(comments, n - 1);
      var t := Merge(comments, n);
      var c := comments[n - 1];
      forall k, j | 0 <= k < |t.groups| && 0 <= j < |t.groups[k]|
        ensures t.groups[k][j] < n && FateOf(comments, t.groups[k][j]) == if j == 0 then NewGroup else Appended
      {
        var last := |s.groups| - 1;
        if s.previousEndLine == -1 || c.startLine > s.previousEndLine + 1 {
          if k < |s.groups| {
            assert t.groups[k] == s.groups[k];
          }
        } else if c.startLine == s.previousEndLine + 1 {
          if k < last {
            assert t.groups[k] == s.groups[k];
          } else if j < |s.groups[last]| {
            assert t.groups[k][j] == s.groups[last][j];
          }
        }
      }
    }
  }

  /** The first comment always opens a group. */
  lemma FirstCommentOpensGroup(comments: seq<CommentRange>)
    requires |comments| >= 1
    ensures Merge(comments, 1).groups == [[0]]
  {
  }

  /** A dropped comment still moves the previous end line to its own end line. */
  lemma DroppedMovesEndLine(comments: seq<CommentRange>, n: nat)
    requires 0 < n <= |comments| && FateOf(comments, n - 1) == Dropped
    ensures Merge(comments, n).groups == Merge(comments, n - 1).groups
    ensures Merge(comments, n).previousEndLine == comments[n - 1].endLine
  {
  }

  /** The parts a group of comments becomes. */
  function GroupParts(comments: seq<CommentRange>, group: seq<nat>): (parts: seq<CommentPart>)
    requires forall j :: 0 <= j < |group| ==> group[j] < |comments|
    ensures |parts| == |group|
  {
    seq(|group|, j requires 0 <= j < |group| => PartOf(comments[group[j]]))
  }

  lemma GroupPartsAppend(comments: seq<CommentRange>, group: seq<nat>, x: nat)
    requires forall j :: 0 <= j < |group| ==> group[j] < |comments|
    requires x < |comments|
    ensures GroupParts(comments, group + [x]) == GroupParts(comments, group) + [PartOf(comments[x])]
  {
    var g := group + [x];
    assert forall j :: 0 <= j < |group| ==> g[j] == group[j];
  }

  /** Each group's parts are the parts of its comments, in order. */
  ghost predicate PartsMatchGroups(comments: seq<CommentRange>, s: MergeState)
  {
    |s.parts| == |s.groups| && IndicesBelow(s.groups, |comments|) &&
    forall k :: 0 <= k < |s.groups| ==> s.parts[k] == GroupParts(comments, s.groups[k])
  }

  /** Each merged source comment holds the parts of its group's comments, in order. */
  lemma {:induction false} MergeParts(comments: seq<CommentRange>, n: nat)
    requires n <= |comments|
    ensures PartsMatchGroups(comments, Merge(comments, n))
    decreases n
  {
    if n > 0 {
      MergeParts(comments, n - 1);
      var t := Merge(comments, n);
      forall k | 0 <= k < |t.groups| ensures t.parts[k] == GroupParts(comments, t.groups[k]) {
        MergePartsAt(comments, n, k);
      }
    }
  }

  /** The `k`-th part list after comment `n - 1`, from the lists before it. */
  lemma MergePartsAt(comments: seq<CommentRange>, n: nat, k: nat)
    requires 0 < n <= |comments|
    requires PartsMatchGroups(comments, Merge(comments, n - 1))
    requires k < |Merge(comments, n).groups|
    ensures Merge(comments, n).parts[k] == GroupParts(comments, Merge(comments, n).groups[k])
  {
    var s := Merge(comments, n - 1);
    var t := Merge(comments, n);
    var c := comments[n - 1];
    var last := |s.groups| - 1;
    if s.previousEndLine == -1 || c.startLine > s.previousEndLine + 1 {
      if k < |s.groups| {
        assert t.groups[k] == s.groups[k] && t.parts[k] == s.parts[k];
      } else {
        GroupPartsAppend(comments, [], n - 1);
        assert [] + [n - 1] == [n - 1];
      }
    } else if c.startLine == s.previousEndLine + 1 {
      if k < last {
        assert t.groups[k] == s.groups[k] && t.parts[k] == s.parts[k];
      } else {
        GroupPartsAppend(comments, s.groups[last], n - 1);
      }
    }
  }

  /**
   * `getMergedComments`: a new source comment per group, extended with
   * `addPart` while comments continue on the next line.
   */
  method GetMergedComments(comments: seq<CommentRange>) returns (result: seq<SourceComment>)
    ensures var s := Merge(comments, |comments|);
      |result| == |s.parts| && forall k :: 0 <= k < |result| ==> result[k].parts == s.parts[k]
    ensures forall k :: 0 <= k < |result| ==> fresh(result[k]) && result[k].Valid() && result[k].classifications == []
    ensures forall k, j :: 0 <= k < j < |result| ==> result[k] != result[j]
  {
    result := [];
    var previousCommentEndLine: int := -1;
    ghost var state := Merge(comments, 0);
    for i := 0 to |comments|
      invariant state == Merge(comments, i)
      invariant previousCommentEndLine == state.previousEndLine
      invariant |result| == |state.parts|
      invariant forall k :: 0 <= k < |result| ==> result[k].parts == state.parts[k]
      invariant forall k :: 0 <= k < |result| ==> fresh(result[k]) && result[k].Valid() && result[k].classifications == []
      invariant forall k, j :: 0 <= k < j < |result| ==> result[k] != result[j]
    {
      var c := comments[i];
      MergeIsTurns(comments, i + 1);
      result := MergeComment(result, state, previousCommentEndLine, c, i);
      state := MergeTurn(state, c, i);
      previousCommentEndLine := c.endLine;
    }
  }

  /** One turn of the loop: a new source comment for a new group, or `addPart` on the last one. */
  method MergeComment(result: seq<SourceComment>, ghost state: MergeState, previousCommentEndLine: int,
                      c: CommentRange, ghost i: nat)
    returns (merged: seq<SourceComment>)
    requires previousCommentEndLine == state.previousEndLine
    requires |result| == |state.parts| == |state.groups|
    requires previousCommentEndLine != -1 ==> |result| > 0
    requires forall k :: 0 <= k < |result| ==>
      result[k].parts == state.parts[k] && result[k].Valid() && result[k].classifications == []
    requires forall k, j :: 0 <= k < j < |result| ==> result[k] != result[j]
    modifies result
    ensures |merged| == |MergeTurn(state, c, i).parts|
    ensures forall k :: 0 <= k < |merged| ==>
      merged[k].parts == MergeTurn(state, c, i).parts[k] && merged[k].Valid() && merged[k].classifications == []
    ensures forall k :: 0 <= k < |merged| ==> (k < |result| && merged[k] == result[k]) || fresh(merged[k])
    ensures forall k, j :: 0 <= k < j < |merged| ==> merged[k] != merged[j]
  {
    var currentCommentStartLine := c.startLine;
    if previousCommentEndLine == -1 || currentCommentStartLine > previousCommentEndLine + 1 {
      var comment := new SourceComment(c.pos, c.end, c.text);
      merged := result + [comment];
    } else if currentCommentStartLine == previousCommentEndLine + 1 {
      AddToLast(result, state.parts, result[|result| - 1], c);
      merged := result;
    } else {
      merged := result;
    }
  }

  /** `addPart` on the last merged comment: the last group's parts grow by the comment, the others stay. */
  method AddToLast(result: seq<SourceComment>, ghost parts: seq<seq<CommentPart>>, last: SourceComment, c: CommentRange)
    requires |result| == |parts| > 0 && result[|result| - 1] == last
    requires forall k :: 0 <= k < |result| ==> result[k].parts == parts[k] && result[k].Valid()
    requires forall k, j :: 0 <= k < j < |result| ==> result[k] != result[j]
    modifies last`parts
    ensures forall k :: 0 <= k < |result| ==>
      result[k].Valid() && result[k].parts == (parts[..|parts| - 1] + [parts[|parts| - 1] + [PartOf(c)]])[k]
  {
    last.AddPart(c.pos, c.end, c.text);
    forall k | 0 <= k < |result| - 1 ensures result[k].parts == parts[k] {
      assert result[k] != result[|result| - 1];
    }
  }

  // ---------------------------------------------------------------------
  // The line map

  /** What the line map holds: a syntax node (by identity) or a merged comment. */
  datatype SourcePart = NodeEntry(node: nat) | CommentEntry(comment: SourceComment)

  /** The line map built by visiting `items` (each with its start line) in order. */
  function ItemsByLine(items: seq<(SourcePart, nat)>): map<nat, seq<SourcePart>>
  {
    if |items| == 0 then map[]
    else
      var m := ItemsByLine(items[..|items| - 1]);
      var (item, line) := items[|items| - 1];
      m[line := (if line in m then m[line] else []) + [item]]
  }

  /** The items visited on one line, in order. */
  function OnLine(items: seq<(SourcePart, nat)>, line: nat): seq<SourcePart>
  {
    if |items| == 0 then []
    else OnLine(items[..|items| - 1], line) + (if items[|items| - 1].1 == line then [items[|items| - 1].0] else [])
  }

  /** A line is present iff some item starts on it, and it lists exactly those items in visiting order. */
  lemma {:induction false} ItemsByLineSpec(items: seq<(SourcePart, nat)>)
    ensures forall line :: line in ItemsByLine(items) <==> exists k :: 0 <= k < |items| && items[k].1 == line
    ensures forall line :: line in ItemsByLine(items) ==> ItemsByLine(items)[line] == OnLine(items, line) != []
    decreases |items|
  {
    if |items| > 0 {
      var front := items[..|items| - 1];
      ItemsByLineSpec(front);
      var m := ItemsByLine(items);
      var m0 := ItemsByLine(front);
      forall line ensures line in m <==> exists k :: 0 <= k < |items| && items[k].1 == line {
        if line == items[|items| - 1].1 {
          assert items[|items| - 1].1 == line;
        } else if line in m0 {
          var k :| 0 <= k < |front| && front[k].1 == line;
          assert items[k].1 == line;
        } else {
          forall k | 0 <= k < |items| ensures items[k].1 != line {
            if k < |front| { assert items[k] == front[k]; }
          }
        }
      }
      forall line | line in m ensures m[line] == OnLine(items, line) != [] {
        if line !in ItemsByLine(front) {
          assert OnLine(front, line) == [] by { OnLineEmpty(front, line); }
        }
      }
    }
  }

  lemma {:induction false} OnLineEmpty(items: seq<(SourcePart, nat)>, line: nat)
    requires forall k :: 0 <= k < |items| ==> items[k].1 != line
    ensures OnLine(items, line) == []
    decreases |items|
  {
    if |items| > 0 {
      OnLineEmpty(items[..|items| - 1], line);
    }
  }

  /** The line-map entries of the merged comments: each at the start line of its first comment. */
  function CommentItems(comments: seq<CommentRange>, merged: seq<SourceComment>): (items: seq<(SourcePart, nat)>)
    requires |merged| == |Merge(comments, |comments|).groups|
    ensures |items| == |merged|
  {
    var groups := Merge(comments, |comments|).groups;
    seq(|merged|, k requires 0 <= k < |merged| => (CommentEntry(merged[k]), comments[groups[k][0]].startLine))
  }

  class SourceMap {
    var lineMap: map<nat, seq<SourcePart>>
    /** The merged comments the constructor created (a proof device: the source keeps them only in the map). */
    ghost var comments: seq<SourceComment>

    /**
     * Indexes the file's top-level nodes, then its merged comments, by
     * start line.
     */
    constructor (children: seq<(SourcePart, nat)>, scanned: seq<CommentRange>)
      ensures |comments| == |Merge(scanned, |scanned|).groups|
      ensures forall k :: 0 <= k < |comments| ==> comments[k].parts == Merge(scanned, |scanned|).parts[k]
      ensures forall k :: 0 <= k < |comments| ==>
        fresh(comments[k]) && comments[k].Valid() && comments[k].classifications == []
      ensures forall k, j :: 0 <= k < j < |comments| ==> comments[k] != comments[j]
      ensures lineMap == ItemsByLine(children + CommentItems(scanned, comments))
    {
      lineMap := map[];
      comments := [];
      new;
      AddAllToMap(children);
      var mergedComments := GetMergedComments(scanned);
      comments := mergedComments;
      var items := CommentItems(scanned, mergedComments);
      AddAllToMap(items);
      ItemsByLineAppend(children, items);
    }

    /** `addNodeToMap`: the item joins the end of its line's list, which is created if absent; no other line changes. */
    method AddNodeToMap(item: SourcePart, line: nat)
      modifies this`lineMap
      ensures line in lineMap
      ensures lineMap[line] == (if line in old(lineMap) then old(lineMap)[line] else []) + [item]
      ensures forall l :: l != line ==> (l in lineMap <==> l in old(lineMap))
      ensures forall l :: l != line && l in lineMap ==> lineMap[l] == old(lineMap)[l]
    {
      if line !in lineMap {
        lineMap := lineMap[line := [item]];
      } else {
        lineMap := lineMap[line := lineMap[line] + [item]];
      }
    }

    /** `items.forEach(addNodeToMap)`. */
    method AddAllToMap(items: seq<(SourcePart, nat)>)
      modifies this`lineMap
      ensures lineMap == Extend(old(lineMap), items)
    {
      for k := 0 to |items|
        invariant lineMap == Extend(old(lineMap), items[..k])
      {
        assert items[..k + 1][..k] == items[..k];
        AddNodeToMap(items[k].0, items[k].1);
      }
      assert items[..|items|] == items;
    }
  }

  /** The line map after visiting `items` on top of `m`. */
  function Extend(m: map<nat, seq<SourcePart>>, items: seq<(SourcePart, nat)>): map<nat, seq<SourcePart>>
  {
    if |items| == 0 then m
    else
      var e := Extend(m, items[..|items| - 1]);
      var (item, line) := items[|items| - 1];
      e[line := (if line in e then e[line] else []) + [item]]
  }

  lemma {:induction false} ExtendEmpty(items: seq<(SourcePart, nat)>)
    ensures Extend(map[], items) == ItemsByLine(items)
    decreases |items|
  {
    if |items| > 0 {
      ExtendEmpty(items[..|items| - 1]);
    }
  }

  lemma {:induction false} ExtendAppend(m: map<nat, seq<SourcePart>>, a: seq<(SourcePart, nat)>, b: seq<(SourcePart, nat)>)
    ensures Extend(Extend(m, a), b) == Extend(m, a + b)
    decreases |b|
  {
    if |b| == 0 {
      assert a + b == a;
    } else {
      ExtendAppend(m, a, b[..|b| - 1]);
      assert (a + b)[..|a + b| - 1] == a + b[..|b| - 1];
    }
  }

  lemma ItemsByLineAppend(a: seq<(SourcePart, nat)>, b: seq<(SourcePart, nat)>)
    ensures Extend(Extend(map[], a), b) == ItemsByLine(a + b)
  {
    ExtendAppend(map[], a, b);
    ExtendEmpty(a + b);
  }
}
