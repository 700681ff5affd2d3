/**
 * The nesting-level collector: a memo table from source lines to the
 * nesting level of the first node visited on that line.
 *
 * A node is handed over as the start lines of itself and of its
 * ancestors, nearest first, up to the root of the syntax tree.
 */
module NestingLevels {
  import opened Wrappers

  /** What the walker passes in: a syntax-tree node given by its line chain, or any other source part. */
  datatype SourcePart = NodeChain(lines: seq<nat>) | OtherPart

  /** A node has a start line; the last line of the chain is the root's. */
  predicate WellFormed(part: SourcePart)
  {
    part.NodeChain? ==> |part.lines| >= 1
  }

  /** The first position, from `from` on, where the chain meets a recorded line or reaches the root. */
  function FirstRecorded(lines: seq<nat>, levels: map<nat, nat>, from: nat): (p: nat)
    requires from < |lines|
    ensures from <= p < |lines|
    ensures p == |lines| - 1 || lines[p] in levels
    ensures forall q :: from <= q < p ==> lines[q] !in levels
    decreases |lines| - from
  {
    if from == |lines| - 1 || lines[from] in levels then from else FirstRecorded(lines, levels, from + 1)
  }

  /** The level: parent steps to the first recorded ancestor plus its level; the plain step count at the root. */
  function LevelOf(lines: seq<nat>, levels: map<nat, nat>): nat
    requires |lines| >= 1
  {
    var p := FirstRecorded(lines, levels, 0);
    p + (if lines[p] in levels then levels[lines[p]] else 0)
  }

  /** The table after visiting `part`. */
  function Visit(levels: map<nat, nat>, part: SourcePart): map<nat, nat>
    requires WellFormed(part)
  {
    match part
    case OtherPart => levels
    case NodeChain(lines) =>
      if lines[0] in levels then levels else levels[lines[0] := LevelOf(lines, levels)]
  }

  /**
   * Other source parts and lines already recorded leave the table as it
   * is; otherwise exactly the node's line is added, and every other entry
   * stays.
   */
  lemma VisitSpec(levels: map<nat, nat>, part: SourcePart)
    requires WellFormed(part)
    ensures part.OtherPart? || part.lines[0] in levels ==> Visit(levels, part) == levels
    ensures part.NodeChain? && part.lines[0] !in levels ==>
      Visit(levels, part).Keys == levels.Keys + {part.lines[0]} &&
      Visit(levels, part)[part.lines[0]] == LevelOf(part.lines, levels) &&
      forall l :: l in levels ==> Visit(levels, part)[l] == levels[l]
  {
  }

  /** With nothing on the chain recorded, the level is the number of steps to the root. */
  lemma {:induction false} UnrecordedChainDepth(lines: seq<nat>, levels: map<nat, nat>)
    requires |lines| >= 1
    requires forall k :: 0 <= k < |lines| ==> lines[k] !in levels
    ensures LevelOf(lines, levels) == |lines| - 1
  {
  }

  /** A node below a recorded parent on another line lies one level deeper than it. */
  lemma ChildOfRecordedParent(lines: seq<nat>, levels: map<nat, nat>)
    requires |lines| >= 2 && lines[0] !in levels && lines[1] in levels
    ensures LevelOf(lines, levels) == levels[lines[1]] + 1
  {
  }

  /** An unrecorded node's level is one step more than the level its parent's chain yields. */
  lemma {:induction false} LevelThroughParent(lines: seq<nat>, levels: map<nat, nat>)
    requires |lines| >= 2 && lines[0] !in levels
    ensures LevelOf(lines, levels) == LevelOf(lines[1..], levels) + 1
  {
    ShiftedFirstRecorded(lines, levels, 1);
  }

  lemma {:induction false} ShiftedFirstRecorded(lines: seq<nat>, levels: map<nat, nat>, from: nat)
    requires 1 <= from < |lines|
    requires forall q :: 0 <= q < from ==> lines[q] !in levels
    ensures FirstRecorded(lines, levels, 0) == FirstRecorded(lines[1..], levels, from - 1) + 1
    decreases |lines| - from
  {
    if !(from == |lines| - 1 || lines[from] in levels) {
      ShiftedFirstRecorded(lines, levels, from + 1);
    }
    FirstRecordedFrom(lines, levels, from);
  }

  lemma {:induction false} FirstRecordedFrom(lines: seq<nat>, levels: map<nat, nat>, from: nat)
    requires from < |lines|
    requires forall q :: 0 <= q < from ==> lines[q] !in levels
    ensures FirstRecorded(lines, levels, 0) == FirstRecorded(lines, levels, from)
    decreases from
  {
    if from > 0 {
      FirstRecordedFrom(lines, levels, from - 1);
    }
  }

  class NestingLevelCollector {
    var nestingLevels: map<nat, nat>

    constructor ()
      ensures nestingLevels == map[]
    {
      nestingLevels := map[];
    }

    /** `visitNode`: climbs the ancestors until a recorded line or the root, then records the node's line. */
    method VisitNode(node: SourcePart)
      requires WellFormed(node)
      modifies this
      ensures nestingLevels == Visit(old(nestingLevels), node)
      ensures node.NodeChain? ==> GetNestingLevel(node.lines[0]).Some?
    {
      if node.OtherPart? {
        return;
      }
      var lines := node.lines;
      var line := lines[0];
      if line in nestingLevels {
        return;
      }
      var nestingLevel := 0;
      var parent := 0;
      var lineOfParent := lines[parent];
      while parent + 1 < |lines| && lineOfParent !in nestingLevels
        invariant 0 <= parent < |lines| && lineOfParent == lines[parent] && nestingLevel == parent
        invariant forall q :: 0 <= q < parent ==> lines[q] !in nestingLevels
        decreases |lines| - parent
      {
        parent := parent + 1;
        lineOfParent := lines[parent];
        nestingLevel := nestingLevel + 1;
      }
      FirstRecordedFrom(lines, nestingLevels, parent);
      if lineOfParent in nestingLevels {
        nestingLevel := nestingLevel + nestingLevels[lineOfParent];
      }
      nestingLevels := nestingLevels[line := nestingLevel];
    }

    /** `getNestingLevel`: the level recorded for a line, nothing for a line never visited. */
    function GetNestingLevel(line: nat): (r: Option<nat>)
      reads this
      ensures r.Some? <==> line in nestingLevels
    {
      if line in nestingLevels then Some(nestingLevels[line]) else None
    }
  }
}
