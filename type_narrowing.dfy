/**
  The null-guard narrowing checker for TypeScript: in a block, an `if` that
  tests a variable for null or undefined, has no `else` and whose branch can
  fall through, followed by a dereference of that variable before anything
  redefines it, is reported as an issue at the dereference.

  The syntax tree comes from `TsAst`; reading files, parsing and printing
  are outside this module.
*/
module TypeNarrowing {
  import opened Wrappers
  import opened TsAst

  // ---------------------------------------------------------------------------
  // Offsets to lines and columns
  // ---------------------------------------------------------------------------

  /** The number of newline characters in `s`. */
  function NewlineCount(s: string): nat
  {
    if s == [] then 0
    else NewlineCount(s[..|s| - 1]) + (if s[|s| - 1] == '\n' then 1 else 0)
  }

  /** The length of the last line of `s`: how many characters follow its last newline. */
  function LastLineLength(s: string): nat
  {
    if s == [] then 0
    else if s[|s| - 1] == '\n' then 0
    else LastLineLength(s[..|s| - 1]) + 1
  }

  /** How many characters of `text` lie before offset `pos`, once `pos` is clamped to the text. */
  function ScannedLength(text: string, pos: int): (k: nat)
    ensures k <= |text|
    ensures pos >= |text| ==> k == |text|
    ensures 0 <= pos <= |text| ==> k == pos
    ensures pos <= 0 ==> k == 0
  {
    if pos <= 0 then 0 else if pos < |text| then pos else |text|
  }

  /**
    The 1-based line and column of offset `pos` in `text`: the line is one more
    than the number of newlines before `pos`, the column one more than the
    number of characters between the last of them and `pos`. An offset past the
    end of the text is treated as the end of the text.
  */
  method GetLineAndColumn(text: string, pos: int) returns (line: nat, column: nat)
    ensures line == 1 + NewlineCount(text[..ScannedLength(text, pos)])
    ensures column == 1 + LastLineLength(text[..ScannedLength(text, pos)])
  {
    line, column := 1, 1;
    var i := 0;
    while i < pos && i < |text|
      invariant 0 <= i <= ScannedLength(text, pos)
      invariant line == 1 + NewlineCount(text[..i])
      invariant column == 1 + LastLineLength(text[..i])
    {
      assert text[..i + 1][..i] == text[..i];
      if text[i] == '\n' {
        line := line + 1;
        column := 1;
      } else {
        column := column + 1;
      }
      i := i + 1;
    }
  }

  /** The newline count is the multiplicity of the newline character. */
  lemma {:induction false} NewlineCountIsMultiplicity(s: string)
    ensures NewlineCount(s) == multiset(s)['\n']
  {
    if s != [] {
      var init := s[..|s| - 1];
      assert s == init + [s[|s| - 1]];
      NewlineCountIsMultiplicity(init);
    }
  }

  /**
    The last line is the longest newline-free suffix: none of its characters is
    a newline, and the character just before it, if any, is one.
  */
  lemma {:induction false} LastLineIsNewlineFreeSuffix(s: string)
    ensures LastLineLength(s) <= |s|
    ensures forall j :: |s| - LastLineLength(s) <= j < |s| ==> s[j] != '\n'
    ensures LastLineLength(s) < |s| ==> s[|s| - LastLineLength(s) - 1] == '\n'
  {
    if s != [] && s[|s| - 1] != '\n' {
      var init := s[..|s| - 1];
      LastLineIsNewlineFreeSuffix(init);
      assert forall j :: 0 <= j < |init| ==> s[j] == init[j];
    }
  }

  // ---------------------------------------------------------------------------
  // Recognising a null guard
  // ---------------------------------------------------------------------------

  /** JavaScript truthiness of a name that may be `null`: `null` and `""` are falsy. */
  predicate Truthy(name: Option<string>)
  {
    name.Some? && name.value != ""
  }

  /** The `null` and `undefined` keywords; the identifier `undefined` is not one of them. */
  predicate IsNullish(n: Node)
    ensures IsNullish(n) ==> DenotesNothing(n)
    ensures IsIdentifierNamed(n, "undefined") ==> !IsNullish(n)
  {
    n.NullKeyword? || n.UndefinedKeyword?
  }

  /** The identifier `undefined`: together with `IsNullish` it covers every node that denotes nothing. */
  predicate IsUndefinedIdentifier(n: Node)
    ensures IsUndefinedIdentifier(n) ==> DenotesNothing(n) && !IsNullish(n)
    ensures DenotesNothing(n) ==> IsNullish(n) || IsUndefinedIdentifier(n)
  {
    n.Identifier? && n.text == "undefined"
  }

  /** The name `typeof` is applied to, when its operand is a bare identifier (`typeof x.y` gives nothing). */
  function IdentifierFromTypeOf(typeOf: Node): (r: Option<string>)
    requires typeOf.TypeOfExpression?
    ensures r.Some? <==> typeOf.expression.Identifier?
    ensures r.Some? ==> IsIdentifierNamed(typeOf.expression, r.value)
  {
    if typeOf.expression.Identifier? then Some(typeOf.expression.text) else None
  }

  /**
    The guarded name of a comparison `left == right` or `left === right`, trying
    the shapes in source order. The result is `x` exactly when the comparison
    sets the non-empty name `x` against something that denotes nothing.
  */
  function ComparisonGuard(left: Node, right: Node): (r: Option<string>)
    ensures forall x :: ComparesWithNothing(left, right, x) <==> r == Some(x)
  {
    var l := if left.Identifier? then Some(left.text) else None;
    var r := if right.Identifier? then Some(right.text) else None;
    if Truthy(l) && IsNullish(right) then l
    else if Truthy(r) && IsNullish(left) then r
    else if Truthy(l) && IsUndefinedIdentifier(right) then l
    else if Truthy(r) && IsUndefinedIdentifier(left) then r
    else if left.TypeOfExpression? && right.StringLiteral? && Truthy(IdentifierFromTypeOf(left)) && right.text == "undefined"
    then IdentifierFromTypeOf(left)
    else if right.TypeOfExpression? && left.StringLiteral? && Truthy(IdentifierFromTypeOf(right)) && left.text == "undefined"
    then IdentifierFromTypeOf(right)
    else None
  }

  ghost predicate IsIdentifierNamed(n: Node, x: string)
  {
    n.Identifier? && n.text == x
  }

  /** `n` denotes "nothing": the `null` or `undefined` keyword or the identifier `undefined`. */
  ghost predicate DenotesNothing(n: Node)
  {
    n.NullKeyword? || n.UndefinedKeyword? || IsIdentifierNamed(n, "undefined")
  }

  /**
    One side of a comparison is the non-empty name `x`, or `typeof x`, and the
    other denotes nothing (or is the string `'undefined'`, against `typeof x`).
  */
  ghost predicate ComparesWithNothing(left: Node, right: Node, x: string)
  {
    && x != ""
    && (|| (IsIdentifierNamed(left, x) && DenotesNothing(right))
        || (IsIdentifierNamed(right, x) && DenotesNothing(left))
        || (left.TypeOfExpression? && IsIdentifierNamed(left.expression, x) && right == StringLiteral("undefined"))
        || (right.TypeOfExpression? && IsIdentifierNamed(right.expression, x) && left == StringLiteral("undefined")))
  }

  /**
    `e` tests the variable `x` for null or undefined, in one of the shapes the
    checker recognises: `x == nothing`, `nothing == x`, `typeof x == 'undefined'`,
    `'undefined' == typeof x` (each also with `===`), or `!x`.
  */
  ghost predicate GuardsAgainstNull(e: Node, x: string)
  {
    || (&& e.BinaryExpression?
        && (e.op == EqualsEquals || e.op == EqualsEqualsEquals)
        && ComparesWithNothing(e.left, e.right, x))
    || (e.PrefixUnaryExpression? && e.prefix == Exclamation && IsIdentifierNamed(e.operand, x))
  }

  /**
    The variable an `if` condition guards against null or undefined. The
    result is `x` exactly when `e` has one of the recognised shapes for `x`;
    since at most one `x` fits, the order in which the shapes are tried does
    not matter. Everything else, `!=` and `!==` included, gives `None`.
  */
  function ExtractGuardedIdentifier(e: Node): (r: Option<string>)
    ensures forall x :: GuardsAgainstNull(e, x) <==> r == Some(x)
  {
    var fromComparison :=
      if e.BinaryExpression? && (e.op == EqualsEquals || e.op == EqualsEqualsEquals)
      then ComparisonGuard(e.left, e.right)
      else None;
    if fromComparison.Some? then fromComparison
    else if e.PrefixUnaryExpression? && e.prefix == Exclamation && e.operand.Identifier? then Some(e.operand.text)
    else None
  }

  // ---------------------------------------------------------------------------
  // Does a branch always exit?
  // ---------------------------------------------------------------------------

  /**
    `return`, `throw`, `break` and `continue` exit; a block exits when one of
    its statements does; an `if` exits when it has an `else` and both branches
    exit; nothing else does.
  */
  predicate BlockHasExit(n: Node)
    ensures BlockHasExit(n) ==>
              || n.ReturnStatement? || n.ThrowStatement? || n.BreakStatement? || n.ContinueStatement?
              || n.Block?
              || (n.IfStatement? && n.elseStatement.Some?)
  {
    match n
    case ReturnStatement(_) => true
    case ThrowStatement(_) => true
    case BreakStatement => true
    case ContinueStatement => true
    case Block(ss) => exists s :: s in ss && BlockHasExit(s)
    case IfStatement(_, _, None) => false
    case IfStatement(_, t, Some(e)) => BlockHasExit(t) && BlockHasExit(e)
    case _ => false
  }

  /** How running a statement can end: by falling through to the next one, or by leaving. */
  datatype Completion = Normal | Abrupt

  /**
    The ways a statement can complete when every condition may go either way
    and every statement kind the checker does not inspect may fall through.
  */
  ghost function Completions(n: Node): set<Completion>
    decreases n, 1
  {
    match n
    case ReturnStatement(_) => {Abrupt}
    case ThrowStatement(_) => {Abrupt}
    case BreakStatement => {Abrupt}
    case ContinueStatement => {Abrupt}
    case Block(ss) => SequenceCompletions(ss)
    case IfStatement(_, t, None) => Completions(t) + {Normal}
    case IfStatement(_, t, Some(e)) => Completions(t) + Completions(e)
    case _ => {Normal}
  }

  /** The ways running `ss` one after another can complete: a statement runs only if the ones before it fell through. */
  ghost function SequenceCompletions(ss: seq<Node>): set<Completion>
    decreases ss, 0
  {
    if ss == [] then {Normal}
    else
      var first := Completions(ss[0]);
      if Normal in first then (first - {Normal}) + SequenceCompletions(ss[1..]) else first
  }

  /** A branch has an exit exactly when no way of running it falls through. */
  lemma {:induction false} BlockHasExitIffNoFallThrough(n: Node)
    ensures BlockHasExit(n) <==> Normal !in Completions(n)
    decreases n, 1
  {
    match n
    case Block(ss) => SequenceHasExitIffNoFallThrough(ss);
    case IfStatement(_, t, None) => BlockHasExitIffNoFallThrough(t);
    case IfStatement(_, t, Some(e)) =>
      BlockHasExitIffNoFallThrough(t);
      BlockHasExitIffNoFallThrough(e);
    case _ =>
  }

  lemma {:induction false} SequenceHasExitIffNoFallThrough(ss: seq<Node>)
    ensures (exists s :: s in ss && BlockHasExit(s)) <==> Normal !in SequenceCompletions(ss)
    decreases ss, 0
  {
    if ss != [] {
      BlockHasExitIffNoFallThrough(ss[0]);
      SequenceHasExitIffNoFallThrough(ss[1..]);
      assert forall s :: s in ss <==> s == ss[0] || s in ss[1..];
    }
  }

  // ---------------------------------------------------------------------------
  // Redefinitions and dereferences
  // ---------------------------------------------------------------------------

  /**
    `stmt` gives `name` a new value: a variable statement declaring `name`, or
    an expression statement `name = ...` with a plain `=` (compound operators
    such as `+=` do not count).
  */
  predicate StatementRedefines(stmt: Node, name: string)
    ensures StatementRedefines(stmt, name) ==>
              || (&& stmt.VariableStatement?
                  && exists d :: d in stmt.declarations && d.VariableDeclaration? && IsIdentifierNamed(d.name, name))
              || (&& stmt.ExpressionStatement?
                  && stmt.expression.BinaryExpression?
                  && stmt.expression.op == Equals
                  && stmt.expression.left.Identifier?
                  && stmt.expression.left.text == name)
  {
    match stmt
    case VariableStatement(ds) =>
      exists d :: d in ds && d.VariableDeclaration? && d.name.Identifier? && d.name.text == name
    case ExpressionStatement(BinaryExpression(Identifier(t, _), Equals, _)) => t == name
    case _ => false
  }

  /**
    The three shapes side by side: `name = e` and `let name ...` (among other
    declarations) redefine `name`; `name op= e` does not, and neither does a
    declaration list that declares only other names.
  */
  lemma RedefinitionShapes(name: string, other: string, start: nat, e: Node, init: Option<Node>, ds: seq<Node>)
    requires other != name
    ensures StatementRedefines(ExpressionStatement(BinaryExpression(Identifier(name, start), Equals, e)), name)
    ensures StatementRedefines(VariableStatement(ds + [VariableDeclaration(Identifier(name, start), init)]), name)
    ensures !StatementRedefines(ExpressionStatement(BinaryExpression(Identifier(name, start), CompoundAssignment, e)), name)
    ensures !StatementRedefines(ExpressionStatement(BinaryExpression(Identifier(other, start), Equals, e)), name)
    ensures !StatementRedefines(VariableStatement([VariableDeclaration(Identifier(other, start), init)]), name)
  {
    var d := VariableDeclaration(Identifier(name, start), init);
    assert d in ds + [d];
  }

  /** `n` dereferences the bare identifier `name`: `name.p`, `name[i]` or `name(...)`. */
  predicate IsUsageSite(n: Node, name: string)
    ensures IsUsageSite(n, name) ==> |Children(n)| > 0 && IsIdentifierNamed(Children(n)[0], name)
  {
    && (n.PropertyAccessExpression? || n.ElementAccessExpression? || n.CallExpression?)
    && n.expression.Identifier?
    && n.expression.text == name
  }

  /** The dereferenced identifier of the first usage site of `name` in `nodes`. */
  function FirstUsage(nodes: seq<Node>, name: string): (r: Option<Node>)
    ensures r.Some? ==> r.value.Identifier? && r.value.text == name
  {
    if nodes == [] then None
    else if IsUsageSite(nodes[0], name) then Some(nodes[0].expression)
    else FirstUsage(nodes[1..], name)
  }

  /** The search finds nothing exactly when no node is a usage site. */
  lemma {:induction false} FirstUsageNone(nodes: seq<Node>, name: string)
    ensures FirstUsage(nodes, name).None? <==> forall m :: m in nodes ==> !IsUsageSite(m, name)
  {
    if nodes != [] {
      FirstUsageNone(nodes[1..], name);
      assert forall m :: m in nodes <==> m == nodes[0] || m in nodes[1..];
    }
  }

  /** A usage found is the identifier dereferenced by the first usage site. */
  lemma {:induction false} FirstUsageIsFirstSite(nodes: seq<Node>, name: string)
    requires FirstUsage(nodes, name).Some?
    ensures exists i :: FirstSiteAt(nodes, name, i) && FirstUsage(nodes, name).value == nodes[i].expression
  {
    if IsUsageSite(nodes[0], name) {
      assert FirstSiteAt(nodes, name, 0);
    } else {
      FirstUsageIsFirstSite(nodes[1..], name);
      var i :| FirstSiteAt(nodes[1..], name, i) && FirstUsage(nodes[1..], name).value == nodes[1..][i].expression;
      assert FirstSiteAt(nodes, name, i + 1);
    }
  }

  /** `nodes[i]` is the first usage site of `name` in `nodes`. */
  ghost predicate FirstSiteAt(nodes: seq<Node>, name: string, i: int)
  {
    && 0 <= i < |nodes|
    && IsUsageSite(nodes[i], name)
    && forall j :: 0 <= j < i ==> !IsUsageSite(nodes[j], name)
  }

  lemma {:induction false} FirstUsageAppend(a: seq<Node>, b: seq<Node>, name: string)
    ensures FirstUsage(a + b, name) == if FirstUsage(a, name).Some? then FirstUsage(a, name) else FirstUsage(b, name)
  {
    if a == [] {
      assert a + b == b;
    } else {
      assert (a + b)[0] == a[0];
      assert (a + b)[1..] == a[1..] + b;
      FirstUsageAppend(a[1..], b, name);
    }
  }

  /** Walking one more child continues the search in that child's tree. */
  lemma WalkStep(children: seq<Node>, i: nat, name: string)
    requires i < |children|
    ensures FirstUsage(PreOrderAll(children[..i + 1]), name) ==
            if FirstUsage(PreOrderAll(children[..i]), name).Some? then FirstUsage(PreOrderAll(children[..i]), name)
            else FirstUsage(PreOrder(children[i]), name)
  {
    var before, child := children[..i], children[i];
    assert children[..i + 1] == before + [child];
    PreOrderAllAppend(before, [child]);
    assert [child][1..] == [];
    assert PreOrderAll([child]) == PreOrder(child);
    FirstUsageAppend(PreOrderAll(before), PreOrder(child), name);
  }

  /** At a node that is not a usage site, the search goes on in its children's trees. */
  lemma WalkPastRoot(n: Node, name: string)
    requires !IsUsageSite(n, name)
    ensures FirstUsage(PreOrder(n), name) == FirstUsage(PreOrderAll(Children(n)), name)
  {
    FirstUsageAppend([n], PreOrderAll(Children(n)), name);
  }

  /**
    The walk of `findUsageInNode`: `found` is the variable the walk closes over.
    Once it is set the walk does nothing; otherwise a usage site sets it to the
    site's identifier without looking inside, and any other node is walked
    child by child.
  */
  method Walk(n: Node, name: string, found: Option<Node>) returns (result: Option<Node>)
    ensures result == if found.Some? then found else FirstUsage(PreOrder(n), name)
    decreases Size(n)
  {
    if found.Some? {
      return found;
    }
    if IsUsageSite(n, name) {
      return Some(n.expression);
    }
    var children := Children(n);
    result := None;
    for i := 0 to |children|
      invariant result == FirstUsage(PreOrderAll(children[..i]), name)
    {
      ChildSmaller(n, i);
      WalkStep(children, i, name);
      result := Walk(children[i], name, result);
    }
    assert children[..|children|] == children;
    WalkPastRoot(n, name);
  }

  /** The first dereference of `name` in the tree rooted at `node`, in pre-order. */
  method FindUsageInNode(node: Node, name: string) returns (found: Option<Node>)
    ensures found == FirstUsage(PreOrder(node), name)
  {
    found := Walk(node, name, None);
  }

  /**
    The dereference `findUsage` reports for `name` in the statements after a
    guard: statements are taken in order, a redefinition ends the search with
    nothing (even if it also dereferences `name`), and otherwise the first
    statement holding a dereference gives its first one.
  */
  function UsageAfter(stmts: seq<Node>, name: string): (r: Option<Node>)
    ensures r.Some? ==> r.value.Identifier? && r.value.text == name
  {
    if stmts == [] then None
    else if StatementRedefines(stmts[0], name) then None
    else if FirstUsage(PreOrder(stmts[0]), name).Some? then FirstUsage(PreOrder(stmts[0]), name)
    else UsageAfter(stmts[1..], name)
  }

  method FindUsage(statements: seq<Node>, name: string) returns (usage: Option<Node>)
    ensures usage == UsageAfter(statements, name)
  {
    for i := 0 to |statements|
      invariant UsageAfter(statements[i..], name) == UsageAfter(statements, name)
    {
      assert statements[i..][1..] == statements[i + 1..];
      if StatementRedefines(statements[i], name) {
        return None;
      }
      usage := FindUsageInNode(statements[i], name);
      if usage.Some? {
        return usage;
      }
    }
    assert statements[|statements|..] == [];
    return None;
  }

  /** The tree rooted at `n` dereferences `name` somewhere. */
  ghost predicate ContainsUsage(n: Node, name: string)
  {
    exists m :: m in PreOrder(n) && IsUsageSite(m, name)
  }

  /** The walk of a statement finds a usage exactly when the statement's tree holds one. */
  lemma ContainsUsageIffFound(n: Node, name: string)
    ensures ContainsUsage(n, name) <==> FirstUsage(PreOrder(n), name).Some?
  {
    FirstUsageNone(PreOrder(n), name);
  }

  /**
    `stmts[k]` is the first statement from index `from` on that dereferences
    `name`, and neither it nor any statement between `from` and it redefines
    `name`.
  */
  ghost predicate FirstUsedAfter(stmts: seq<Node>, name: string, from: int, k: int)
  {
    && 0 <= from <= k < |stmts|
    && (forall j :: from <= j <= k ==> !StatementRedefines(stmts[j], name))
    && ContainsUsage(stmts[k], name)
    && (forall j :: from <= j < k ==> !ContainsUsage(stmts[j], name))
  }

  /** `stmts[k]` is the first statement that dereferences `name`, and no statement up to it redefines `name`. */
  ghost predicate FirstUsedAt(stmts: seq<Node>, name: string, k: int)
  {
    FirstUsedAfter(stmts, name, 0, k)
  }

  /** A first dereferencing statement of a suffix is one of the whole sequence, counted from where the suffix starts. */
  lemma FirstUsedShift(stmts: seq<Node>, name: string, from: nat, k: int)
    requires from <= |stmts| && FirstUsedAt(stmts[from..], name, k)
    ensures FirstUsedAfter(stmts, name, from, from + k)
  {
    var rest := stmts[from..];
    forall j | from <= j <= from + k
      ensures !StatementRedefines(stmts[j], name)
    {
      assert stmts[j] == rest[j - from];
    }
    forall j | from <= j < from + k
      ensures !ContainsUsage(stmts[j], name)
    {
      assert stmts[j] == rest[j - from];
    }
    assert stmts[from + k] == rest[k];
  }

  /** The search from statement `j` on, where `stmts[k]` is the first dereferencing statement from `j`, stops at `k`. */
  lemma {:induction false} UsageAfterFrom(stmts: seq<Node>, name: string, j: nat, k: int)
    requires FirstUsedAfter(stmts, name, j, k)
    ensures UsageAfter(stmts[j..], name) == FirstUsage(PreOrder(stmts[k]), name)
    decreases k - j
  {
    var rest := stmts[j..];
    assert rest[0] == stmts[j];
    assert !StatementRedefines(stmts[j], name);
    ContainsUsageIffFound(stmts[j], name);
    if j < k {
      assert !ContainsUsage(stmts[j], name);
      assert rest[1..] == stmts[j + 1..];
      UsageAfterFrom(stmts, name, j + 1, k);
    }
  }

  /** When `stmts[k]` is the first statement dereferencing `name` and nothing up to it redefines `name`, `findUsage` reports its first dereference. */
  lemma UsageAfterFindsFirst(stmts: seq<Node>, name: string, k: int)
    requires FirstUsedAt(stmts, name, k)
    ensures UsageAfter(stmts, name) == FirstUsage(PreOrder(stmts[k]), name)
  {
    UsageAfterFrom(stmts, name, 0, k);
    assert stmts[0..] == stmts;
  }

  /** A dereference reported by `findUsage` comes from a first dereferencing statement before any redefinition. */
  lemma {:induction false} UsageAfterHasFirst(stmts: seq<Node>, name: string)
    requires UsageAfter(stmts, name).Some?
    ensures exists k :: FirstUsedAt(stmts, name, k)
  {
    ContainsUsageIffFound(stmts[0], name);
    if ContainsUsage(stmts[0], name) {
      assert FirstUsedAt(stmts, name, 0);
    } else {
      var tail := stmts[1..];
      UsageAfterHasFirst(tail, name);
      var k :| FirstUsedAt(tail, name, k);
      assert forall j :: 0 <= j < |tail| ==> tail[j] == stmts[j + 1];
      assert FirstUsedAt(stmts, name, k + 1);
    }
  }

  /**
    What `findUsage` finds: a usage exactly when some statement dereferences
    `name` with no redefinition of it up to and including that statement, and
    then the first dereference in the first statement that has one.
  */
  lemma UsageAfterSpec(stmts: seq<Node>, name: string)
    ensures forall u :: UsageAfter(stmts, name) == Some(u) <==>
              exists k :: FirstUsedAt(stmts, name, k) && FirstUsage(PreOrder(stmts[k]), name) == Some(u)
  {
    if UsageAfter(stmts, name).Some? {
      UsageAfterHasFirst(stmts, name);
      var k :| FirstUsedAt(stmts, name, k);
      UsageAfterFindsFirst(stmts, name, k);
    }
    forall k | FirstUsedAt(stmts, name, k)
      ensures UsageAfter(stmts, name) == FirstUsage(PreOrder(stmts[k]), name)
    {
      UsageAfterFindsFirst(stmts, name, k);
    }
  }

  /** No statement dereferencing `name` is reached before a redefinition of `name`. */
  ghost predicate NoReachableUsage(stmts: seq<Node>, name: string)
  {
    forall k :: 0 <= k < |stmts| && ContainsUsage(stmts[k], name) ==>
      exists j :: 0 <= j <= k && StatementRedefines(stmts[j], name)
  }

  /** `findUsage` finds nothing exactly when every dereference of `name` comes at or after a redefinition of it. */
  lemma {:induction false} UsageAfterNone(stmts: seq<Node>, name: string)
    ensures UsageAfter(stmts, name).None? <==> NoReachableUsage(stmts, name)
  {
    if stmts == [] {
    } else if StatementRedefines(stmts[0], name) {
      assert NoReachableUsage(stmts, name) by {
        forall k | 0 <= k < |stmts| && ContainsUsage(stmts[k], name)
          ensures exists j :: 0 <= j <= k && StatementRedefines(stmts[j], name)
        {
          assert StatementRedefines(stmts[0], name);
        }
      }
    } else if ContainsUsage(stmts[0], name) {
      ContainsUsageIffFound(stmts[0], name);
      assert !(exists j :: 0 <= j <= 0 && StatementRedefines(stmts[j], name));
    } else {
      ContainsUsageIffFound(stmts[0], name);
      var tail := stmts[1..];
      UsageAfterNone(tail, name);
      assert forall j :: 0 <= j < |tail| ==> tail[j] == stmts[j + 1];
      if NoReachableUsage(tail, name) {
        forall k | 0 <= k < |stmts| && ContainsUsage(stmts[k], name)
          ensures exists j :: 0 <= j <= k && StatementRedefines(stmts[j], name)
        {
          var j :| 0 <= j <= k - 1 && StatementRedefines(tail[j], name);
          assert StatementRedefines(stmts[j + 1], name);
        }
      } else {
        var k :| 0 <= k < |tail| && ContainsUsage(tail[k], name) &&
                 !(exists j :: 0 <= j <= k && StatementRedefines(tail[j], name));
        assert ContainsUsage(stmts[k + 1], name);
        forall j | 0 <= j <= k + 1
          ensures !StatementRedefines(stmts[j], name)
        {
          if j > 0 {
            assert stmts[j] == tail[j - 1];
          }
        }
      }
    }
  }

  // ---------------------------------------------------------------------------
  // Issues of a block
  // ---------------------------------------------------------------------------

  /**
    An issue of `analyzeBlock`: the offset of the dereference and the guarded
    variable, whose name is all the message depends on.
  */
  datatype Issue = Issue(pos: nat, guarded: string)
  {
    /** The message text reported for the issue: it quotes the guarded name after `Value `. */
    function Message(): (r: string)
      ensures |r| == |guarded| + 79
      ensures r[..7] == "Value '" && r[7..7 + |guarded|] == guarded && r[7 + |guarded|] == '\''
    {
      "Value '" + guarded + ['\''] + " is checked for null/undefined but used later without exiting the guard"
    }
  }

  /** Two issues with the same message guard the same name: the message identifies the variable. */
  lemma MessageIdentifiesGuard(a: Issue, b: Issue)
    ensures a.Message() == b.Message() ==> a.guarded == b.guarded
  {
    if a.Message() == b.Message() {
      assert a.guarded == a.Message()[7..7 + |a.guarded|];
    }
  }

  /** The issue the statement at index `i` of a block gives rise to, if any. */
  function IssueAt(stmts: seq<Node>, i: nat): (r: Option<Issue>)
    requires i < |stmts|
    ensures r.Some? ==> stmts[i].IfStatement? && stmts[i].elseStatement.None?
  {
    var stmt := stmts[i];
    if !stmt.IfStatement? then None
    else
      match ExtractGuardedIdentifier(stmt.expression)
      case None => None
      case Some(guarded) =>
        if guarded != "" && stmt.elseStatement.None? && !BlockHasExit(stmt.thenStatement) then
          match UsageAfter(stmts[i + 1..], guarded)
          case None => None
          case Some(usage) => Some(Issue(usage.start, guarded))
        else None
  }

  /** The issues the first `k` statements of a block give rise to, in statement order. */
  function IssuesUpTo(stmts: seq<Node>, k: nat): (r: seq<Issue>)
    requires k <= |stmts|
    ensures |r| <= k
  {
    if k == 0 then []
    else
      var earlier := IssuesUpTo(stmts, k - 1);
      match IssueAt(stmts, k - 1)
      case None => earlier
      case Some(issue) => earlier + [issue]
  }

  /** One more statement appends its issue, if it has one. */
  lemma IssuesUpToStep(stmts: seq<Node>, i: nat)
    requires i < |stmts|
    ensures IssueAt(stmts, i).None? ==> IssuesUpTo(stmts, i + 1) == IssuesUpTo(stmts, i)
    ensures IssueAt(stmts, i).Some? ==> IssuesUpTo(stmts, i + 1) == IssuesUpTo(stmts, i) + [IssueAt(stmts, i).value]
  {
  }

  lemma AppendAssociates(a: seq<Issue>, b: seq<Issue>, c: seq<Issue>)
    ensures a + (b + c) == (a + b) + c
  {
  }

  /** The issue list of the analysis, which every analysed block appends to. */
  class IssueList {
    var items: seq<Issue>

    constructor ()
      ensures items == []
    {
      items := [];
    }
  }

  /**
    The check `analyzeBlock` makes at the statement with index `i`: an `if`
    without `else` whose condition guards a variable against null and whose
    branch can fall through gives an issue at the first later dereference of
    that variable.
  */
  method CheckStatement(statements: seq<Node>, i: nat) returns (issue: Option<Issue>)
    requires i < |statements|
    ensures issue == IssueAt(statements, i)
  {
    issue := None;
    var stmt := statements[i];
    if stmt.IfStatement? {
      var guarded := ExtractGuardedIdentifier(stmt.expression);
      if guarded.Some? && guarded.value != "" && stmt.elseStatement.None? && !BlockHasExit(stmt.thenStatement) {
        var usage := FindUsage(statements[i + 1..], guarded.value);
        if usage.Some? {
          issue := Some(Issue(usage.value.start, guarded.value));
        }
      }
    }
  }

  /** Appends the issues of `block`, in statement order, and leaves the issues already listed as they were. */
  method AnalyzeBlock(block: Node, issues: IssueList)
    requires block.Block?
    modifies issues
    ensures issues.items == old(issues.items) + IssuesUpTo(block.statements, |block.statements|)
  {
    var statements := block.statements;
    ghost var initial := issues.items;
    for i := 0 to |statements|
      invariant issues.items == initial + IssuesUpTo(statements, i)
    {
      var issue := CheckStatement(statements, i);
      IssuesUpToStep(statements, i);
      if issue.Some? {
        AppendAssociates(initial, IssuesUpTo(statements, i), [issue.value]);
        issues.items := issues.items + [issue.value];
      }
    }
  }

  /**
    The guard at index `i` is unsafe for `g`, and `stmts[k]` holds the
    dereference reported for it: `stmts[i]` is an `if` without `else` guarding
    `g`, its branch can fall through, and `stmts[k]` is the first later
    statement dereferencing `g`, with no redefinition of `g` in between or in it.
  */
  ghost predicate UnsafeGuard(stmts: seq<Node>, i: nat, g: string, k: int)
    requires i < |stmts|
  {
    && stmts[i].IfStatement?
    && GuardsAgainstNull(stmts[i].expression, g)
    && g != ""
    && stmts[i].elseStatement.None?
    && !BlockHasExit(stmts[i].thenStatement)
    && FirstUsedAfter(stmts, g, i + 1, k)
  }

  /** Every issue comes from an unsafe guard: it names the guarded variable and sits at the first dereference after the guard. */
  lemma IssueAtSound(stmts: seq<Node>, i: nat)
    requires i < |stmts| && IssueAt(stmts, i).Some?
    ensures exists g, k :: && UnsafeGuard(stmts, i, g, k)
                           && FirstUsage(PreOrder(stmts[k]), g).Some?
                           && IssueAt(stmts, i).value == Issue(FirstUsage(PreOrder(stmts[k]), g).value.start, g)
  {
    var stmt, rest := stmts[i], stmts[i + 1..];
    var g := ExtractGuardedIdentifier(stmt.expression).value;
    UsageAfterHasFirst(rest, g);
    var k :| FirstUsedAt(rest, g, k);
    FirstUsedShift(stmts, g, i + 1, k);
    UsageAfterFrom(stmts, g, i + 1, i + 1 + k);
    IssueAtOfUsage(stmts, i, g, UsageAfter(rest, g).value);
    assert UnsafeGuard(stmts, i, g, i + 1 + k);
  }

  /** Every unsafe guard gives rise to an issue, at the first dereference of the guarded variable after it. */
  lemma IssueAtComplete(stmts: seq<Node>, i: nat, g: string, k: int)
    requires i < |stmts| && UnsafeGuard(stmts, i, g, k)
    ensures FirstUsage(PreOrder(stmts[k]), g).Some?
    ensures IssueAt(stmts, i) == Some(Issue(FirstUsage(PreOrder(stmts[k]), g).value.start, g))
  {
    UsageAfterFrom(stmts, g, i + 1, k);
    ContainsUsageIffFound(stmts[k], g);
    IssueAtOfUsage(stmts, i, g, FirstUsage(PreOrder(stmts[k]), g).value);
  }

  /** A guard that `ExtractGuardedIdentifier` recognises, with a fall-through branch, reports the usage found after it. */
  lemma IssueAtOfUsage(stmts: seq<Node>, i: nat, g: string, usage: Node)
    requires i < |stmts| && stmts[i].IfStatement? && stmts[i].elseStatement.None? && !BlockHasExit(stmts[i].thenStatement)
    requires GuardsAgainstNull(stmts[i].expression, g) && g != ""
    requires UsageAfter(stmts[i + 1..], g) == Some(usage)
    ensures IssueAt(stmts, i) == Some(Issue(usage.start, g))
  {
    assert ExtractGuardedIdentifier(stmts[i].expression) == Some(g);
  }

  /** The issues among `outcomes`, in order. */
  function Collect(outcomes: seq<Option<Issue>>): (r: seq<Issue>)
    ensures |r| <= |outcomes|
  {
    if outcomes == [] then []
    else
      var last := outcomes[|outcomes| - 1];
      Collect(outcomes[..|outcomes| - 1]) + if last.Some? then [last.value] else []
  }

  /** The indices of the issues among `outcomes`, in order. */
  ghost function Sources(outcomes: seq<Option<Issue>>): seq<nat>
  {
    if outcomes == [] then []
    else
      var n := |outcomes| - 1;
      Sources(outcomes[..n]) + if outcomes[n].Some? then [n] else []
  }

  /** `Collect` keeps one issue per `Some` outcome: the outcome at its source index. */
  lemma {:induction false} CollectMatchesSources(outcomes: seq<Option<Issue>>)
    ensures |Sources(outcomes)| == |Collect(outcomes)|
    ensures forall j :: 0 <= j < |Sources(outcomes)| ==>
              Sources(outcomes)[j] < |outcomes| && outcomes[Sources(outcomes)[j]] == Some(Collect(outcomes)[j])
  {
    if outcomes != [] {
      var n := |outcomes| - 1;
      var init := outcomes[..n];
      CollectMatchesSources(init);
      var sources, issues := Sources(init), Collect(init);
      if outcomes[n].Some? {
        var sources', issues' := sources + [n], issues + [outcomes[n].value];
        assert Sources(outcomes) == sources';
        assert Collect(outcomes) == issues';
        forall j | 0 <= j < |sources'|
          ensures sources'[j] < |outcomes| && outcomes[sources'[j]] == Some(issues'[j])
        {
          if j < |sources| {
            assert sources'[j] == sources[j] && issues'[j] == issues[j];
            assert init[sources[j]] == outcomes[sources[j]];
          }
        }
      } else {
        assert Sources(outcomes) == sources;
        assert Collect(outcomes) == issues;
        forall j | 0 <= j < |sources|
          ensures sources[j] < |outcomes| && outcomes[sources[j]] == Some(issues[j])
        {
          assert init[sources[j]] == outcomes[sources[j]];
        }
      }
    }
  }

  /** The source indices increase, and all lie below the number of outcomes. */
  lemma {:induction false} SourcesIncrease(outcomes: seq<Option<Issue>>)
    ensures forall j :: 0 <= j < |Sources(outcomes)| ==> Sources(outcomes)[j] < |outcomes|
    ensures forall a, b :: 0 <= a < b < |Sources(outcomes)| ==> Sources(outcomes)[a] < Sources(outcomes)[b]
  {
    if outcomes != [] {
      var n := |outcomes| - 1;
      SourcesIncrease(outcomes[..n]);
      var sources := Sources(outcomes[..n]);
      if outcomes[n].Some? {
        var sources' := sources + [n];
        assert Sources(outcomes) == sources';
        assert forall j :: 0 <= j < |sources| ==> sources'[j] == sources[j];
      } else {
        assert Sources(outcomes) == sources;
      }
    }
  }

  /** Every `Some` outcome has its index among the sources. */
  lemma {:induction false} SourcesComplete(outcomes: seq<Option<Issue>>)
    ensures forall i :: 0 <= i < |outcomes| && outcomes[i].Some? ==> i in Sources(outcomes)
  {
    if outcomes != [] {
      var n := |outcomes| - 1;
      var init := outcomes[..n];
      SourcesComplete(init);
      var sources := Sources(init);
      assert forall i :: 0 <= i < n ==> init[i] == outcomes[i];
      if outcomes[n].Some? {
        assert Sources(outcomes) == sources + [n];
      } else {
        assert Sources(outcomes) == sources;
      }
    }
  }

  /** The outcome of each of the first `k` statements of a block. */
  ghost function Outcomes(stmts: seq<Node>, k: nat): (r: seq<Option<Issue>>)
    requires k <= |stmts|
  {
    seq(k, i requires 0 <= i < k => IssueAt(stmts, i))
  }

  /** The issues of the first `k` statements are those collected from their outcomes. */
  lemma {:induction false} IssuesUpToCollects(stmts: seq<Node>, k: nat)
    requires k <= |stmts|
    ensures IssuesUpTo(stmts, k) == Collect(Outcomes(stmts, k))
  {
    if k > 0 {
      IssuesUpToCollects(stmts, k - 1);
      var outcomes := Outcomes(stmts, k);
      assert outcomes[..k - 1] == Outcomes(stmts, k - 1);
      assert outcomes[k - 1] == IssueAt(stmts, k - 1);
    }
  }

  /** Indices of the statements among the first `k` that give rise to an issue. */
  ghost function IssueSources(stmts: seq<Node>, k: nat): seq<nat>
    requires k <= |stmts|
  {
    Sources(Outcomes(stmts, k))
  }

  /**
    The issues of a block come one per issuing statement, each from a
    different statement, in statement order, and no issuing statement is
    missed.
  */
  lemma IssuesInStatementOrder(stmts: seq<Node>, k: nat)
    requires k <= |stmts|
    ensures |IssueSources(stmts, k)| == |IssuesUpTo(stmts, k)|
    ensures forall j :: 0 <= j < |IssueSources(stmts, k)| ==>
              IssueSources(stmts, k)[j] < k && IssueAt(stmts, IssueSources(stmts, k)[j]) == Some(IssuesUpTo(stmts, k)[j])
    ensures forall a, b :: 0 <= a < b < |IssueSources(stmts, k)| ==> IssueSources(stmts, k)[a] < IssueSources(stmts, k)[b]
    ensures forall i :: 0 <= i < k && IssueAt(stmts, i).Some? ==> i in IssueSources(stmts, k)
  {
    IssuesUpToCollects(stmts, k);
    CollectMatchesSources(Outcomes(stmts, k));
    SourcesIncrease(Outcomes(stmts, k));
    SourcesComplete(Outcomes(stmts, k));
  }
}
