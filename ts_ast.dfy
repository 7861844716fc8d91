/**
  The slice of the TypeScript syntax tree that the null-guard narrowing checker
  inspects. Every node kind the checker tests for (`ts.isIdentifier`,
  `ts.isIfStatement`, ...) has its own constructor; every other kind is an
  `OtherNode` that only contributes its children to a walk.
  `Children` lists a node's children in the order `ts.forEachChild` visits them;
  type annotations and type arguments, which it also visits, have no slot here.
*/
module TsAst {
  import opened Wrappers

  datatype BinaryOperator =
    | EqualsEquals             // ==
    | EqualsEqualsEquals       // ===
    | ExclamationEquals        // !=
    | ExclamationEqualsEquals  // !==
    | Equals                   // =
    | CompoundAssignment       // +=, -=, ??=, ...
    | OtherBinaryOperator      // &&, +, <, ...

  datatype PrefixOperator = Exclamation | OtherPrefixOperator

  datatype Node =
    | Identifier(text: string, start: nat)  // `start` is the offset `getStart` reports
    | NullKeyword
    | UndefinedKeyword
    | StringLiteral(text: string)
    | BinaryExpression(left: Node, op: BinaryOperator, right: Node)
    | PrefixUnaryExpression(prefix: PrefixOperator, operand: Node)
    | TypeOfExpression(expression: Node)
    | PropertyAccessExpression(expression: Node, name: Node)
    | ElementAccessExpression(expression: Node, argument: Node)
    | CallExpression(expression: Node, arguments: seq<Node>)
    | ReturnStatement(returned: Option<Node>)
    | ThrowStatement(expression: Node)
    | BreakStatement
    | ContinueStatement
    | Block(statements: seq<Node>)
    | IfStatement(expression: Node, thenStatement: Node, elseStatement: Option<Node>)
    | VariableStatement(declarations: seq<Node>)
    | VariableDeclaration(name: Node, initializer: Option<Node>)
    | ExpressionStatement(expression: Node)
    | OtherNode(children: seq<Node>)

  /** Number of nodes in the tree rooted at `n`. */
  function Size(n: Node): nat
  {
    match n
    case Identifier(_, _) => 1
    case NullKeyword => 1
    case UndefinedKeyword => 1
    case StringLiteral(_) => 1
    case BinaryExpression(l, _, r) => 1 + Size(l) + Size(r)
    case PrefixUnaryExpression(_, e) => 1 + Size(e)
    case TypeOfExpression(e) => 1 + Size(e)
    case PropertyAccessExpression(e, nm) => 1 + Size(e) + Size(nm)
    case ElementAccessExpression(e, a) => 1 + Size(e) + Size(a)
    case CallExpression(e, args) => 1 + Size(e) + SizeAll(args)
    case ReturnStatement(e) => 1 + OptionSize(e)
    case ThrowStatement(e) => 1 + Size(e)
    case BreakStatement => 1
    case ContinueStatement => 1
    case Block(ss) => 1 + SizeAll(ss)
    case IfStatement(c, t, e) => 1 + Size(c) + Size(t) + OptionSize(e)
    case VariableStatement(ds) => 1 + SizeAll(ds)
    case VariableDeclaration(nm, init) => 1 + Size(nm) + OptionSize(init)
    case ExpressionStatement(e) => 1 + Size(e)
    case OtherNode(cs) => 1 + SizeAll(cs)
  }

  function OptionSize(o: Option<Node>): nat
  {
    match o
    case None => 0
    case Some(x) => Size(x)
  }

  function SizeAll(ns: seq<Node>): nat
  {
    if ns == [] then 0 else Size(ns[0]) + SizeAll(ns[1..])
  }

  function OptionList(o: Option<Node>): seq<Node>
  {
    match o
    case None => []
    case Some(x) => [x]
  }

  /** The children of `n`, in the order `ts.forEachChild` visits them (type annotations and type arguments aside). */
  function Children(n: Node): seq<Node>
  {
    match n
    case Identifier(_, _) => []
    case NullKeyword => []
    case UndefinedKeyword => []
    case StringLiteral(_) => []
    case BinaryExpression(l, _, r) => [l, r]
    case PrefixUnaryExpression(_, e) => [e]
    case TypeOfExpression(e) => [e]
    case PropertyAccessExpression(e, nm) => [e, nm]
    case ElementAccessExpression(e, a) => [e, a]
    case CallExpression(e, args) => [e] + args
    case ReturnStatement(e) => OptionList(e)
    case ThrowStatement(e) => [e]
    case BreakStatement => []
    case ContinueStatement => []
    case Block(ss) => ss
    case IfStatement(c, t, e) => [c, t] + OptionList(e)
    case VariableStatement(ds) => ds
    case VariableDeclaration(nm, init) => [nm] + OptionList(init)
    case ExpressionStatement(e) => [e]
    case OtherNode(cs) => cs
  }

  lemma SizeAllSingle(x: Node)
    ensures SizeAll([x]) == Size(x)
  {
    assert [x][1..] == [];
  }

  lemma SizeAllPair(x: Node, y: Node)
    ensures SizeAll([x, y]) == Size(x) + Size(y)
  {
    assert [x, y][1..] == [y];
    SizeAllSingle(y);
  }

  lemma OptionListSize(o: Option<Node>)
    ensures SizeAll(OptionList(o)) == OptionSize(o)
  {
    if o.Some? {
      SizeAllSingle(o.value);
    }
  }

  lemma SizeAllCons(x: Node, xs: seq<Node>)
    ensures SizeAll([x] + xs) == Size(x) + SizeAll(xs)
  {
    assert ([x] + xs)[0] == x;
    assert ([x] + xs)[1..] == xs;
  }

  lemma IfChildrenSize(c: Node, t: Node, e: Option<Node>)
    ensures SizeAll([c, t] + OptionList(e)) == Size(c) + Size(t) + OptionSize(e)
  {
    assert [c, t] + OptionList(e) == [c] + ([t] + OptionList(e));
    SizeAllCons(c, [t] + OptionList(e));
    SizeAllCons(t, OptionList(e));
    OptionListSize(e);
  }

  /** The children of a node together are one node smaller than the node. */
  lemma ChildrenSize(n: Node)
    ensures SizeAll(Children(n)) == Size(n) - 1
  {
    if IsStatement(n) {
      StatementChildrenSize(n);
    } else {
      ExpressionChildrenSize(n);
    }
  }

  predicate IsStatement(n: Node)
  {
    || n.ReturnStatement? || n.ThrowStatement? || n.BreakStatement? || n.ContinueStatement? || n.Block?
    || n.IfStatement? || n.VariableStatement? || n.VariableDeclaration? || n.ExpressionStatement? || n.OtherNode?
  }

  lemma ExpressionChildrenSize(n: Node)
    requires !IsStatement(n)
    ensures SizeAll(Children(n)) == Size(n) - 1
  {
    match n
    case Identifier(_, _) => assert Children(n) == [];
    case NullKeyword => assert Children(n) == [];
    case UndefinedKeyword => assert Children(n) == [];
    case StringLiteral(_) => assert Children(n) == [];
    case BinaryExpression(l, _, r) => SizeAllPair(l, r);
    case PrefixUnaryExpression(_, e) => SizeAllSingle(e);
    case TypeOfExpression(e) => SizeAllSingle(e);
    case PropertyAccessExpression(e, nm) => SizeAllPair(e, nm);
    case ElementAccessExpression(e, a) => SizeAllPair(e, a);
    case CallExpression(e, args) => SizeAllCons(e, args);
  }

  lemma StatementChildrenSize(n: Node)
    requires IsStatement(n)
    ensures SizeAll(Children(n)) == Size(n) - 1
  {
    match n
    case ReturnStatement(e) => OptionListSize(e);
    case ThrowStatement(e) => SizeAllSingle(e);
    case BreakStatement => assert Children(n) == [];
    case ContinueStatement => assert Children(n) == [];
    case Block(ss) => assert Children(n) == ss;
    case IfStatement(c, t, e) => IfChildrenSize(c, t, e);
    case VariableStatement(ds) => assert Children(n) == ds;
    case VariableDeclaration(nm, init) => SizeAllCons(nm, OptionList(init)); OptionListSize(init);
    case ExpressionStatement(e) => SizeAllSingle(e);
    case OtherNode(cs) => assert Children(n) == cs;
  }

  lemma {:induction false} SizeAllAppend(a: seq<Node>, b: seq<Node>)
    ensures SizeAll(a + b) == SizeAll(a) + SizeAll(b)
  {
    if a == [] {
      assert a + b == b;
    } else {
      assert (a + b)[0] == a[0];
      assert (a + b)[1..] == a[1..] + b;
      SizeAllAppend(a[1..], b);
    }
  }

  lemma {:induction false} SizeAllBound(ns: seq<Node>, i: nat)
    requires i < |ns|
    ensures Size(ns[i]) <= SizeAll(ns)
  {
    if i > 0 {
      SizeAllBound(ns[1..], i - 1);
    }
  }

  /** Every child is strictly smaller than its parent. */
  lemma ChildSmaller(n: Node, i: nat)
    requires i < |Children(n)|
    ensures Size(Children(n)[i]) < Size(n)
  {
    SizeAllBound(Children(n), i);
    ChildrenSize(n);
  }

  /** All nodes of the tree rooted at `n`, in pre-order: a node, then its children's trees in visiting order. */
  function PreOrder(n: Node): (r: seq<Node>)
    decreases Size(n), 1
    ensures |r| >= 1 && r[0] == n
  {
    ChildrenSize(n);
    [n] + PreOrderAll(Children(n))
  }

  function PreOrderAll(ns: seq<Node>): seq<Node>
    decreases SizeAll(ns), 2
  {
    if ns == [] then [] else PreOrder(ns[0]) + PreOrderAll(ns[1..])
  }

  lemma {:induction false} PreOrderAllAppend(a: seq<Node>, b: seq<Node>)
    ensures PreOrderAll(a + b) == PreOrderAll(a) + PreOrderAll(b)
  {
    if a == [] {
      assert a + b == b;
    } else {
      assert (a + b)[0] == a[0];
      assert (a + b)[1..] == a[1..] + b;
      PreOrderAllAppend(a[1..], b);
    }
  }
}
