/**
 * The cyclomatic-complexity collector: for every function-like node it
 * records the complexity of the function's body, and for every block the
 * complexity of what the block contains, counting the branching
 * constructs and leaving nested functions to themselves.
 */
module CyclomaticComplexity {
  import opened Wrappers

  datatype Operator = BarBar | AmpersandAmpersand | OtherOperator

  /**
   * The node kinds the collector tells apart.  A function-like node names
   * its body's id, or has no body (an overload signature).
   */
  datatype Kind =
    | FunctionLike(body: Option<nat>)
    | Block
    | CaseClause(statementCount: nat)
    | BinaryExpression(operator: Operator)
    | CatchClause | ConditionalExpression | DoStatement | ForStatement | ForInStatement | ForOfStatement
    | IfStatement | WhileStatement
    | OtherKind

  /** A syntax-tree node: its identity, its kind and its children in source order. */
  datatype Node = Node(id: nat, kind: Kind, children: seq<Node>)

  /** Recorded complexities by node id; `None` is the key a function without a body writes to. */
  type Complexities = map<Option<nat>, int>

  /** The source part handed to the collector: a node, or anything else. */
  datatype SourcePart = TreeNode(node: Node) | OtherPart

  /** `isIncreasingCyclomaticComplexity`. */
  predicate IsIncreasing(node: Node)
  {
    match node.kind
    case CaseClause(statementCount) => statementCount > 0
    case BinaryExpression(operator) => operator == BarBar || operator == AmpersandAmpersand
    case CatchClause => true
    case ConditionalExpression => true
    case DoStatement => true
    case ForStatement => true
    case ForInStatement => true
    case ForOfStatement => true
    case IfStatement => true
    case WhileStatement => true
    case _ => false
  }

  function Max(a: int, b: int): int { if a > b then a else b }

  /**
   * The traversal `calculate`: the running complexity after `node` and
   * the table after it.  A function starts over at 1 and gives the
   * running complexity back untouched; a block records what its contents
   * added, at least 1.
   */
  function Calc(node: Node, complexity: int, table: Complexities): (Complexities, int)
    decreases node, 1
  {
    if node.kind.FunctionLike? then
      var (table', inner) := CalcChildren(node.children, |node.children|, 1, table);
      (table'[node.kind.body := inner], complexity)
    else
      var previous := if IsIncreasing(node) then complexity + 1 else complexity;
      var (table', after) := CalcChildren(node.children, |node.children|, previous, table);
      (if node.kind.Block? then table'[Some(node.id) := Max(1, after - previous)] else table', after)
  }

  /** The traversal over the first `n` children. */
  function CalcChildren(children: seq<Node>, n: nat, complexity: int, table: Complexities): (Complexities, int)
    requires n <= |children|
    decreases children, 0, n
  {
    if n == 0 then (table, complexity)
    else
      var (table', c) := CalcChildren(children, n - 1, complexity, table);
      Calc(children[n - 1], c, table')
  }

  /** The reference count: the increasing nodes of a subtree, nested functions left out. */
  function Count(node: Node): nat
    decreases node, 1
  {
    if node.kind.FunctionLike? then 0
    else (if IsIncreasing(node) then 1 else 0) + CountChildren(node.children, |node.children|)
  }

  function CountChildren(children: seq<Node>, n: nat): nat
    requires n <= |children|
    decreases children, 0, n
  {
    if n == 0 then 0 else CountChildren(children, n - 1) + Count(children[n - 1])
  }

  /** The running complexity grows by exactly the subtree's count; a function leaves it as it was. */
  lemma {:induction false} CalcAddsCount(node: Node, complexity: int, table: Complexities)
    ensures Calc(node, complexity, table).1 == complexity + Count(node)
    decreases node, 1
  {
    if !node.kind.FunctionLike? {
      var previous := if IsIncreasing(node) then complexity + 1 else complexity;
      CalcChildrenAddsCount(node.children, |node.children|, previous, table);
    }
  }

  lemma {:induction false} CalcChildrenAddsCount(children: seq<Node>, n: nat, complexity: int, table: Complexities)
    requires n <= |children|
    ensures CalcChildren(children, n, complexity, table).1 == complexity + CountChildren(children, n)
    decreases children, 0, n
  {
    if n > 0 {
      CalcChildrenAddsCount(children, n - 1, complexity, table);
      var (table', c) := CalcChildren(children, n - 1, complexity, table);
      CalcAddsCount(children[n - 1], c, table');
    }
  }

  /** A function's body is recorded as 1 plus the increasing nodes of the function, nested functions left out. */
  lemma FunctionBodyComplexity(node: Node, complexity: int, table: Complexities)
    requires node.kind.FunctionLike?
    ensures Calc(node, complexity, table).0[node.kind.body] == 1 + CountChildren(node.children, |node.children|)
  {
    CalcChildrenAddsCount(node.children, |node.children|, 1, table);
  }

  /** A block is recorded with the increasing nodes it contains, and at least 1. */
  lemma BlockComplexity(node: Node, complexity: int, table: Complexities)
    requires node.kind.Block?
    ensures Calc(node, complexity, table).0[Some(node.id)] == Max(1, CountChildren(node.children, |node.children|))
    ensures Calc(node, complexity, table).0[Some(node.id)] >= 1
  {
    CalcChildrenAddsCount(node.children, |node.children|, complexity, table);
  }

  /** Every recorded complexity is at least 1: the traversal only writes such values. */
  predicate AllPositive(table: Complexities)
  {
    forall key :: key in table ==> table[key] >= 1
  }

  lemma {:induction false} CalcKeepsPositive(node: Node, complexity: int, table: Complexities)
    requires AllPositive(table)
    ensures AllPositive(Calc(node, complexity, table).0)
    decreases node, 1
  {
    if node.kind.FunctionLike? {
      CalcChildrenKeepsPositive(node.children, |node.children|, 1, table);
      CalcChildrenAddsCount(node.children, |node.children|, 1, table);
    } else {
      var previous := if IsIncreasing(node) then complexity + 1 else complexity;
      CalcChildrenKeepsPositive(node.children, |node.children|, previous, table);
    }
  }

  lemma {:induction false} CalcChildrenKeepsPositive(children: seq<Node>, n: nat, complexity: int, table: Complexities)
    requires n <= |children| && AllPositive(table)
    ensures AllPositive(CalcChildren(children, n, complexity, table).0)
    decreases children, 0, n
  {
    if n > 0 {
      CalcChildrenKeepsPositive(children, n - 1, complexity, table);
      var (table', c) := CalcChildren(children, n - 1, complexity, table);
      CalcKeepsPositive(children[n - 1], c, table');
    }
  }

  /** `if (a || b) {}` inside a function: the body block counts the `if` and the `||`. */
  lemma IfWithOrExample()
    ensures var cond := Node(3, BinaryExpression(BarBar), []);
      var ifStatement := Node(2, IfStatement, [cond, Node(4, Block, [])]);
      var body := Node(1, Block, [ifStatement]);
      var fn := Node(0, FunctionLike(Some(1)), [body]);
      Calc(fn, 0, map[]).0 == map[Some(4) := 1, Some(1) := 3]
  {
    var cond := Node(3, BinaryExpression(BarBar), []);
    var inner := Node(4, Block, []);
    var ifStatement := Node(2, IfStatement, [cond, inner]);
    var body := Node(1, Block, [ifStatement]);
    assert Calc(cond, 2, map[]) == (map[], 3);
    assert CalcChildren([cond, inner], 1, 2, map[]) == (map[], 3);
    assert Calc(inner, 3, map[]) == (map[Some(4) := 1], 3);
    assert Calc(ifStatement, 1, map[]) == (map[Some(4) := 1], 3);
    assert CalcChildren([ifStatement], 1, 1, map[]) == (map[Some(4) := 1], 3);
    assert Calc(body, 1, map[]) == (map[Some(4) := 1, Some(1) := 2], 3);
    assert CalcChildren([body], 1, 1, map[]) == (map[Some(4) := 1, Some(1) := 2], 3);
  }

  class CyclomaticComplexityCollector {
    var nodeComplexities: Complexities

    constructor ()
      ensures nodeComplexities == map[]
    {
      nodeComplexities := map[];
    }

    /** `visitNode`: only function-scope boundaries start a calculation. */
    method VisitNode(part: SourcePart, isFunctionScopeBoundary: Node -> bool)
      modifies this
      ensures part.TreeNode? && isFunctionScopeBoundary(part.node) ==>
        nodeComplexities == Calc(part.node, 0, old(nodeComplexities)).0
      ensures !(part.TreeNode? && isFunctionScopeBoundary(part.node)) ==> nodeComplexities == old(nodeComplexities)
    {
      if !(part.TreeNode? && isFunctionScopeBoundary(part.node)) {
        return;
      }
      CalculateCyclomaticComplexity(part.node);
    }

    /** `getComplexity`: the recorded complexity of a node, nothing for a node never recorded. */
    function GetComplexity(node: Node): (r: Option<int>)
      reads this
      ensures r.Some? <==> Some(node.id) in nodeComplexities
    {
      if Some(node.id) in nodeComplexities then Some(nodeComplexities[Some(node.id)]) else None
    }

    method CalculateCyclomaticComplexity(node: Node)
      modifies this
      ensures nodeComplexities == Calc(node, 0, old(nodeComplexities)).0
    {
      var complexity := Calculate(node, 0);
    }

    /** `calculate`, with the captured running complexity passed in and handed back. */
    method Calculate(child: Node, complexity: int) returns (complexity': int)
      modifies this
      ensures (nodeComplexities, complexity') == Calc(child, complexity, old(nodeComplexities))
      decreases child, 1
    {
      ghost var table := nodeComplexities;
      if child.kind.FunctionLike? {
        var saved := complexity;
        complexity' := 1;
        for i := 0 to |child.children|
          invariant (nodeComplexities, complexity') == CalcChildren(child.children, i, 1, table)
        {
          complexity' := Calculate(child.children[i], complexity');
        }
        nodeComplexities := nodeComplexities[child.kind.body := complexity'];
        complexity' := saved;
      } else {
        complexity' := complexity;
        if IsIncreasing(child) {
          complexity' := complexity' + 1;
        }
        var previous := complexity';
        for i := 0 to |child.children|
          invariant (nodeComplexities, complexity') == CalcChildren(child.children, i, previous, table)
        {
          complexity' := Calculate(child.children[i], complexity');
        }
        if child.kind.Block? {
          nodeComplexities := nodeComplexities[Some(child.id) := Max(1, complexity' - previous)];
        }
      }
    }
  }
}
