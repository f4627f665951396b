/** The part of Babel's JavaScript syntax tree the route injection reads and
    writes. Every node type the injection does not inspect is an `Other`
    node that keeps its children, so a traversal still reaches the calls and
    declarations nested anywhere inside it. */
module BabelTree {
  import opened Wrappers

  datatype Node =
    | StringLiteral(text: string)
    | NumericLiteral(number: int)
    | BooleanLiteral(truth: bool)
    | Identifier(name: string)
    | ArrayExpression(elements: seq<Node>)
    | ObjectExpression(properties: seq<Node>)
    | ObjectProperty(key: Node, value: Node)
    | ObjectMethod(key: Node, body: Node)
    | CallExpression(callee: Node, arguments: seq<Node>)
    | VariableDeclaration(declarations: seq<Node>)
    | VariableDeclarator(id: Node, init: Option<Node>)
    | Other(kind: string, parts: seq<Node>)

  /** The node type, as Babel's `node.type`. */
  function Tag(n: Node): nat {
    match n
    case StringLiteral(_) => 0
    case NumericLiteral(_) => 1
    case BooleanLiteral(_) => 2
    case Identifier(_) => 3
    case ArrayExpression(_) => 4
    case ObjectExpression(_) => 5
    case ObjectProperty(_, _) => 6
    case ObjectMethod(_, _) => 7
    case CallExpression(_, _) => 8
    case VariableDeclaration(_) => 9
    case VariableDeclarator(_, _) => 10
    case Other(_, _) => 11
  }

  /** The children a traversal visits, in Babel's visiting order (a call's
      callee before its arguments, a property's key before its value, a
      declarator's id before its initialiser). */
  function Children(n: Node): (cs: seq<Node>)
    ensures forall c :: c in cs ==> c < n
    ensures forall i :: 0 <= i < |cs| ==> cs[i] < n
  {
    match n
    case StringLiteral(_) => []
    case NumericLiteral(_) => []
    case BooleanLiteral(_) => []
    case Identifier(_) => []
    case ArrayExpression(es) => es
    case ObjectExpression(ps) => ps
    case ObjectProperty(k, v) => [k, v]
    case ObjectMethod(k, b) => [k, b]
    case CallExpression(c, args) => [c] + args
    case VariableDeclaration(ds) => ds
    case VariableDeclarator(id, None) => [id]
    case VariableDeclarator(id, Some(i)) => [id, i]
    case Other(_, ps) => ps
  }

  /** `n` with its children replaced, position by position, by `cs`. */
  function WithChildren(n: Node, cs: seq<Node>): (r: Node)
    requires |cs| == |Children(n)|
    ensures Children(r) == cs && Tag(r) == Tag(n)
    ensures cs == Children(n) ==> r == n
    ensures n.Other? ==> r.kind == n.kind
    ensures n.VariableDeclarator? ==> r.init.Some? == n.init.Some?
  {
    match n
    case StringLiteral(_) => n
    case NumericLiteral(_) => n
    case BooleanLiteral(_) => n
    case Identifier(_) => n
    case ArrayExpression(_) => ArrayExpression(cs)
    case ObjectExpression(_) => ObjectExpression(cs)
    case ObjectProperty(_, _) => ObjectProperty(cs[0], cs[1])
    case ObjectMethod(_, _) => ObjectMethod(cs[0], cs[1])
    case CallExpression(_, _) => CallExpression(cs[0], cs[1..])
    case VariableDeclaration(_) => VariableDeclaration(cs)
    case VariableDeclarator(_, None) => VariableDeclarator(cs[0], None)
    case VariableDeclarator(_, Some(_)) => VariableDeclarator(cs[0], Some(cs[1]))
    case Other(k, _) => Other(k, cs)
  }

  /** Replacing the children twice keeps only the second replacement. */
  lemma WithChildrenTwice(n: Node, a: seq<Node>, b: seq<Node>)
    requires |a| == |Children(n)| && |b| == |Children(n)|
    ensures WithChildren(WithChildren(n, a), b) == WithChildren(n, b)
  {
  }

  /** A tree in which no traversal visitor of the route injection can fire:
      it holds no call and no variable declaration at any depth. */
  predicate Inert(n: Node)
    decreases n
  {
    !n.CallExpression? && !n.VariableDeclaration? &&
    forall i :: 0 <= i < |Children(n)| ==> Inert(Children(n)[i])
  }

  /** `b` has the node type of `a`, and is `a` itself when `a` is an identifier. */
  predicate Mirrors(a: Node, b: Node) {
    Tag(a) == Tag(b) && (a.Identifier? ==> a == b)
  }

  /** `b` mirrors `a` down to `depth` levels below the root: the same node
      types, the same number of children above the last level, and the same
      identifiers. Elements added to or dropped from an array `depth` or more
      levels down leave `a` and `b` echoing each other. */
  predicate Echo(a: Node, b: Node, depth: nat)
    decreases depth
  {
    Mirrors(a, b) &&
    (depth > 0 ==>
      |Children(a)| == |Children(b)| &&
      forall i :: 0 <= i < |Children(a)| ==> Echo(Children(a)[i], Children(b)[i], depth - 1))
  }

  lemma {:induction false} EchoReflexive(a: Node, depth: nat)
    ensures Echo(a, a, depth)
    decreases depth
  {
    if depth > 0 {
      forall i | 0 <= i < |Children(a)| ensures Echo(Children(a)[i], Children(a)[i], depth - 1) {
        EchoReflexive(Children(a)[i], depth - 1);
      }
    }
  }

  lemma {:induction false} EchoTransitive(a: Node, b: Node, c: Node, depth: nat)
    requires Echo(a, b, depth) && Echo(b, c, depth)
    ensures Echo(a, c, depth)
    decreases depth
  {
    if depth > 0 {
      forall i | 0 <= i < |Children(a)| ensures Echo(Children(a)[i], Children(c)[i], depth - 1) {
        EchoTransitive(Children(a)[i], Children(b)[i], Children(c)[i], depth - 1);
      }
    }
  }

  lemma {:induction false} EchoShallower(a: Node, b: Node, depth: nat)
    requires depth > 0 && Echo(a, b, depth)
    ensures Echo(a, b, depth - 1)
    decreases depth
  {
    if depth > 1 {
      forall i | 0 <= i < |Children(a)| ensures Echo(Children(a)[i], Children(b)[i], depth - 2) {
        EchoShallower(Children(a)[i], Children(b)[i], depth - 1);
      }
    }
  }

  /** Replacing the children by echoes of them echoes the node one level deeper. */
  lemma EchoWithChildren(n: Node, ts: seq<Node>, depth: nat)
    requires |ts| == |Children(n)|
    requires forall i :: 0 <= i < |ts| ==> Echo(Children(n)[i], ts[i], depth)
    ensures Echo(n, WithChildren(n, ts), depth + 1)
  {
  }
}
