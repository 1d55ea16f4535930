/**
 * Rule matching of the toy shift-reduce parser in Random/testAST.cpp: rule
 * parts, the AST nodes they are matched against, rule keys and rules.
 * Token types (Tk) and AST types (Ast) are the parameters of the language
 * spec; V is whatever a rule's callback builds for a reduced node.
 */
module AstRules {

  /** RulePart: a tagged union that asks for either a token of some token
      type or a node of some AST type. */
  datatype RulePart<Tk, Ast> = TokenPart(tokenType: Tk) | NodePart(astType: Ast)

  /** RulePart::operator==: false when the tags differ; otherwise the token
      types or the AST types are compared. */
  function PartEq<Tk(==), Ast(==)>(a: RulePart<Tk, Ast>, b: RulePart<Tk, Ast>): (r: bool)
    ensures r <==> a == b
  {
    if a.TokenPart? != b.TokenPart? then false
    else if a.TokenPart? && a.tokenType == b.tokenType then true
    else if a.NodePart? && a.astType == b.astType then true
    else false
  }

  /** RulePart::operator!=. */
  function PartNe<Tk(==), Ast(==)>(a: RulePart<Tk, Ast>, b: RulePart<Tk, Ast>): (r: bool)
    ensures r <==> a != b
  {
    !PartEq(a, b)
  }

  /** What a node's impl holds: the token of a token node, or what the
      callback of the rule that built the node returned. */
  datatype NodeImpl<Tk, V> = TokenImpl(tokenType: Tk) | RuleImpl(value: V)

  /** ASTNode: its type and impl are set once, right after the node is
      created; its parent and children change as reductions adopt it. */
  class AstNode<Tk, Ast, V> {
    const astType: Ast
    const impl: NodeImpl<Tk, V>
    var parent: AstNode?<Tk, Ast, V>
    var children: seq<AstNode<Tk, Ast, V>>

    constructor (t: Ast, i: NodeImpl<Tk, V>)
      ensures astType == t && impl == i && parent == null && children == []
    {
      astType, impl := t, i;
      parent, children := null, [];
    }

    /** emplaceChild: the node's parent becomes this node, which appends it
        to its children. */
    method EmplaceChild(node: AstNode<Tk, Ast, V>)
      modifies this, node
      ensures node.parent == this
      ensures children == old(children) + [node]
      ensures node != this ==> node.children == old(node.children) && parent == old(parent)
    {
      node.parent := this;
      children := children + [node];
    }
  }

  /** The impl of a node of the language's token AST type is read as a token
      impl; every such node must carry one. */
  ghost predicate TokensCarried<Tk, Ast, V>(nodes: seq<AstNode<Tk, Ast, V>>, astToken: Ast)
  {
    forall k | 0 <= k < |nodes| :: nodes[k].astType == astToken ==> nodes[k].impl.TokenImpl?
  }

  /** The rule part a node answers to: its token type for a token node, its
      AST type for any other. */
  function PartOf<Tk, Ast(==), V>(node: AstNode<Tk, Ast, V>, astToken: Ast): RulePart<Tk, Ast>
    requires node.astType == astToken ==> node.impl.TokenImpl?
  {
    if node.astType == astToken then TokenPart(node.impl.tokenType) else NodePart(node.astType)
  }

  /** RulePart::matchesNode: a token node matches only a token part of its
      token type; any other node matches only a node part of its AST type. */
  function MatchesNode<Tk(==), Ast(==), V>(part: RulePart<Tk, Ast>, node: AstNode<Tk, Ast, V>, astToken: Ast): (r: bool)
    requires node.astType == astToken ==> node.impl.TokenImpl?
    ensures r <==> part == PartOf(node, astToken)
  {
    if node.astType == astToken then
      if !part.TokenPart? then false
      else if part.tokenType != node.impl.tokenType then false
      else true
    else
      if !part.NodePart? then false
      else if part.astType != node.astType then false
      else true
  }

  /** RuleKey: the parts a rule asks for, in stack order. */
  datatype RuleKey<Tk, Ast> = RuleKey(parts: seq<RulePart<Tk, Ast>>)

  /** RuleKey::matchesImpl<idx>: the first argument against part idx, then,
      only if that matched, the rest against the parts after it. */
  function MatchesFrom<Tk(==), Ast(==)>(parts: seq<RulePart<Tk, Ast>>, idx: nat, args: seq<RulePart<Tk, Ast>>): (r: bool)
    requires |args| > 0 && idx + |args| <= |parts|
    ensures r <==> args == parts[idx..idx + |args|]
    decreases |args|
  {
    if |args| == 1 then PartEq(args[0], parts[idx])
    else if !PartEq(args[0], parts[idx]) then false
    else
      var r := MatchesFrom(parts, idx + 1, args[1..]);
      assert args == [args[0]] + args[1..];
      assert parts[idx..idx + |args|] == [parts[idx]] + parts[idx + 1..idx + 1 + |args[1..]|];
      r
  }

  /** RuleKey::matches: false when the number of arguments differs from the
      number of parts, else the arguments are compared position by position.
      It takes at least one argument. */
  function KeyMatches<Tk(==), Ast(==)>(key: RuleKey<Tk, Ast>, args: seq<RulePart<Tk, Ast>>): (r: bool)
    requires |args| > 0
    ensures r <==> args == key.parts
  {
    if |args| != |key.parts| then false
    else
      assert key.parts[0..|args|] == key.parts;
      MatchesFrom(key.parts, 0, args)
  }

  /** Rule: a key, the AST type of the node a reduction builds, and the
      callback that builds the node's impl from the reduced nodes. */
  datatype Rule<!Tk, !Ast, !V> = Rule(key: RuleKey<Tk, Ast>, result: Ast,
                                   func: seq<AstNode<Tk, Ast, V>> -> V)
}
