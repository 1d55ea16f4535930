/**
 * The Parser of Random/testAST.cpp: a source stack of token nodes, a parse
 * stack and a node stack, shifting from the source and reducing whenever a
 * rule matches somewhere in the parse stack.
 */
module AstParser {
  import opened AstRules

  /** The parse stack holds the parts of a rule starting at position start. */
  ghost predicate StackMatches<Tk, Ast, V>(parts: seq<RulePart<Tk, Ast>>, stack: seq<AstNode<Tk, Ast, V>>,
                                           start: nat, astToken: Ast)
    requires TokensCarried(stack, astToken)
  {
    start + |parts| <= |stack|
    && forall k | 0 <= k < |parts| :: MatchesNode(parts[k], stack[start + k], astToken)
  }

  /** No rule matches anywhere in the stack. */
  ghost predicate MatchFree<Tk, Ast, V>(rules: seq<Rule<Tk, Ast, V>>, stack: seq<AstNode<Tk, Ast, V>>, astToken: Ast)
    requires TokensCarried(stack, astToken)
  {
    forall ri: nat, i: nat | ri < |rules| :: !StackMatches(rules[ri].key.parts, stack, i, astToken)
  }

  /** Every match in the stack ends at its top. */
  ghost predicate MatchesOnlyAtTop<Tk, Ast, V>(rules: seq<Rule<Tk, Ast, V>>, stack: seq<AstNode<Tk, Ast, V>>, astToken: Ast)
    requires TokensCarried(stack, astToken)
  {
    forall ri: nat, i: nat | ri < |rules| && StackMatches(rules[ri].key.parts, stack, i, astToken) ::
      i + |rules[ri].key.parts| == |stack|
  }

  /** The matches in a prefix of a stack are the matches in the stack that
      end within the prefix. */
  lemma MatchInPrefix<Tk, Ast, V>(parts: seq<RulePart<Tk, Ast>>, s: seq<AstNode<Tk, Ast, V>>, n: nat,
                                  i: nat, astToken: Ast)
    requires n <= |s| && TokensCarried(s, astToken)
    ensures TokensCarried(s[..n], astToken)
    ensures StackMatches(parts, s[..n], i, astToken) <==> StackMatches(parts, s, i, astToken) && i + |parts| <= n
  {
    if i + |parts| <= n {
      forall k | 0 <= k < |parts|
        ensures MatchesNode(parts[k], s[..n][i + k], astToken) == MatchesNode(parts[k], s[i + k], astToken)
      {
      }
    }
  }

  /** Pushing a node onto a stack in which nothing matches leaves matches
      only at the top. */
  lemma {:induction false} PushOntoMatchFree<Tk, Ast, V>(rules: seq<Rule<Tk, Ast, V>>, s: seq<AstNode<Tk, Ast, V>>,
                                                        t: AstNode<Tk, Ast, V>, astToken: Ast)
    requires TokensCarried(s + [t], astToken)
    requires TokensCarried(s, astToken) && MatchFree(rules, s, astToken)
    ensures MatchesOnlyAtTop(rules, s + [t], astToken)
  {
    forall ri: nat, i: nat | ri < |rules| && StackMatches(rules[ri].key.parts, s + [t], i, astToken)
      ensures i + |rules[ri].key.parts| == |s + [t]|
    {
      MatchInPrefix(rules[ri].key.parts, s + [t], |s|, i, astToken);
      assert (s + [t])[..|s|] == s;
    }
  }

  /** Replacing the top n nodes of a stack whose matches all end at its top
      by one node again leaves matches only at the top, provided every rule
      has at least one part. */
  lemma {:induction false} ReplaceTop<Tk, Ast, V>(rules: seq<Rule<Tk, Ast, V>>, s: seq<AstNode<Tk, Ast, V>>,
                                                 n: nat, t: AstNode<Tk, Ast, V>, astToken: Ast)
    requires 1 <= n <= |s| && TokensCarried(s, astToken)
    requires forall ri | 0 <= ri < |rules| :: |rules[ri].key.parts| > 0
    requires MatchesOnlyAtTop(rules, s, astToken)
    requires TokensCarried(s[..|s| - n] + [t], astToken)
    ensures MatchesOnlyAtTop(rules, s[..|s| - n] + [t], astToken)
  {
    var p := s[..|s| - n];
    forall ri: nat, i: nat | ri < |rules|
      ensures TokensCarried(p, astToken) && !StackMatches(rules[ri].key.parts, p, i, astToken)
    {
      MatchInPrefix(rules[ri].key.parts, s, |s| - n, i, astToken);
    }
    PushOntoMatchFree(rules, p, t, astToken);
  }

  /** A reduction on a stack whose matches all end at its top pops exactly
      the nodes the rule matched, and leaves matches only at the top. */
  lemma ReduceAtTop<Tk, Ast, V>(rules: seq<Rule<Tk, Ast, V>>, s: seq<AstNode<Tk, Ast, V>>, ri: nat, at: nat,
                                t: AstNode<Tk, Ast, V>, astToken: Ast)
    requires TokensCarried(s, astToken) && ri < |rules|
    requires forall rj | 0 <= rj < |rules| :: |rules[rj].key.parts| > 0
    requires MatchesOnlyAtTop(rules, s, astToken) && StackMatches(rules[ri].key.parts, s, at, astToken)
    requires TokensCarried(s[..|s| - |rules[ri].key.parts|] + [t], astToken)
    ensures at + |rules[ri].key.parts| == |s|
    ensures MatchesOnlyAtTop(rules, s[..|s| - |rules[ri].key.parts|] + [t], astToken)
  {
    ReplaceTop(rules, s, |rules[ri].key.parts|, t, astToken);
  }

  function Reverse<T>(s: seq<T>): (r: seq<T>)
    ensures |r| == |s| && forall k | 0 <= k < |s| :: r[k] == s[|s| - 1 - k]
  {
    if |s| == 0 then [] else Reverse(s[1..]) + [s[0]]
  }

  /** Parser: owns every node it creates (nodeManager), the rules, and the
      source, parse and node stacks. */
  class Parser<Tk(==), Ast(==), V> {
    const astToken: Ast
    var nodeManager: seq<AstNode<Tk, Ast, V>>
    var rules: seq<Rule<Tk, Ast, V>>
    var sourceStack: seq<AstNode<Tk, Ast, V>>
    var parseStack: seq<AstNode<Tk, Ast, V>>
    var nodeStack: seq<AstNode<Tk, Ast, V>>
    /** The nodes shifted since the last run began, in shift order. */
    ghost var shifted: seq<AstNode<Tk, Ast, V>>
    /** Every reduction since the last run began popped exactly the nodes
        its rule matched. */
    ghost var popsMatched: bool

    /** The parse and node stacks hold the same nodes, every rule needs at
        least one part and builds a node of a type other than the token AST
        type, and every node of the token AST type carries a token. */
    ghost predicate Valid()
      reads this
    {
      parseStack == nodeStack
      && (forall ri | 0 <= ri < |rules| :: |rules[ri].key.parts| > 0 && rules[ri].result != astToken)
      && TokensCarried(sourceStack, astToken) && TokensCarried(parseStack, astToken)
    }

    constructor (t: Ast)
      ensures Valid() && astToken == t
      ensures nodeManager == [] && rules == [] && sourceStack == [] && parseStack == [] && nodeStack == []
    {
      astToken := t;
      nodeManager, rules := [], [];
      sourceStack, parseStack, nodeStack := [], [], [];
      shifted, popsMatched := [], true;
    }

    /** RuleSet::createRule: appends a rule. A key always has at least one
        part (the variadic RuleKey constructor needs an argument). */
    method CreateRule(key: RuleKey<Tk, Ast>, result: Ast, func: seq<AstNode<Tk, Ast, V>> -> V)
      requires Valid() && |key.parts| > 0 && result != astToken
      modifies this
      ensures Valid()
      ensures rules == old(rules) + [Rule(key, result, func)]
      ensures nodeManager == old(nodeManager) && sourceStack == old(sourceStack)
      ensures parseStack == old(parseStack) && shifted == old(shifted) && popsMatched == old(popsMatched)
    {
      rules := rules + [Rule(key, result, func)];
    }

    /** shift: the top of the source stack moves onto both the parse and the
        node stack. Shifted onto a stack in which nothing matched, any match
        now ends at the top. */
    method Shift()
      requires Valid() && |sourceStack| > 0
      modifies this
      ensures Valid()
      ensures var top := old(sourceStack[|sourceStack| - 1]);
        sourceStack == old(sourceStack[..|sourceStack| - 1])
        && parseStack == old(parseStack) + [top] && nodeStack == old(nodeStack) + [top]
        && shifted == old(shifted) + [top]
      ensures nodeManager == old(nodeManager) && rules == old(rules) && popsMatched == old(popsMatched)
      ensures old(MatchFree(rules, parseStack, astToken)) ==> MatchesOnlyAtTop(rules, parseStack, astToken)
    {
      var top := sourceStack[|sourceStack| - 1];
      if MatchFree(rules, parseStack, astToken) {
        PushOntoMatchFree(rules, parseStack, top, astToken);
      }
      parseStack := parseStack + [top];
      nodeStack := nodeStack + [top];
      shifted := shifted + [top];
      sourceStack := sourceStack[..|sourceStack| - 1];
    }

    /** parseStackMatchesRule: false when the rule does not fit above start,
        else whether each of its parts matches the node at its position. */
    method ParseStackMatchesRule(start: nat, rule: Rule<Tk, Ast, V>) returns (r: bool)
      requires Valid()
      ensures r == StackMatches(rule.key.parts, parseStack, start, astToken)
    {
      var expSize := |rule.key.parts|;
      if expSize + start > |parseStack| {
        return false;
      }
      var i := 0;
      while i < expSize
        invariant 0 <= i <= expSize
        invariant forall k | 0 <= k < i :: MatchesNode(rule.key.parts[k], parseStack[start + k], astToken)
      {
        if !MatchesNode(rule.key.parts[i], parseStack[start + i], astToken) {
          return false;
        }
        i := i + 1;
      }
      return true;
    }

    /** The search of reduceRecursively: rules in order, and for each the
        offsets from the bottom of the parse stack; the first match wins. */
    method FindMatch() returns (found: bool, ri: nat, at: nat)
      requires Valid()
      ensures found ==> ri < |rules| && StackMatches(rules[ri].key.parts, parseStack, at, astToken)
      ensures found ==> forall rj: nat, j: nat | rj < ri || (rj == ri && j < at) ::
        !StackMatches(rules[rj].key.parts, parseStack, j, astToken)
      ensures !found ==> MatchFree(rules, parseStack, astToken)
    {
      ri := 0;
      while ri < |rules|
        invariant ri <= |rules|
        invariant forall rj: nat, j: nat | rj < ri :: !StackMatches(rules[rj].key.parts, parseStack, j, astToken)
      {
        at := 0;
        while at < |parseStack|
          invariant at <= |parseStack|
          invariant forall j: nat | j < at :: !StackMatches(rules[ri].key.parts, parseStack, j, astToken)
        {
          var m := ParseStackMatchesRule(at, rules[ri]);
          if m {
            return true, ri, at;
          }
          at := at + 1;
        }
        ri := ri + 1;
      }
      return false, 0, 0;
    }

    /** One reduction step of reduceRecursively, for rule ri matched at
        offset at: the top nodes, as many as the rule has parts, are popped
        off the parse stack in stack order and handed to the rule's callback;
        a new result node is created; the same nodes are popped off the node
        stack top first and adopted by the result in that order; the result
        is pushed on both stacks. The popped nodes are the matched ones
        exactly when the match ends at the top, which popsMatched records. */
    method Reduce(ri: nat, ghost at: nat) returns (result: AstNode<Tk, Ast, V>)
      requires Valid() && ri < |rules| && StackMatches(rules[ri].key.parts, parseStack, at, astToken)
      modifies this, parseStack[|parseStack| - |rules[ri].key.parts|..]
      ensures Valid()
      ensures sourceStack == old(sourceStack) && rules == old(rules) && shifted == old(shifted)
      ensures fresh(result) && result.astType == rules[ri].result && result.parent == null
      ensures var used := old(parseStack[|parseStack| - |rules[ri].key.parts|..]);
        result.impl == RuleImpl(rules[ri].func(used))
        && result.children == Reverse(used)
        && forall k | 0 <= k < |used| :: used[k].parent == result && used[k].children == old(used[k].children)
      ensures parseStack == old(parseStack[..|parseStack| - |rules[ri].key.parts|]) + [result]
      ensures nodeManager == old(nodeManager) + [result]
      ensures popsMatched == (old(popsMatched) && at + |rules[ri].key.parts| == old(|parseStack|))
    {
      var rule := rules[ri];
      var size := |rule.key.parts|;
      ghost var s0 := parseStack;
      ghost var n := |s0|;
      var used := PopUsed(size);
      result := new AstNode(rule.result, RuleImpl(rule.func(used)));
      nodeManager := nodeManager + [result];
      PopAdopt(result, size);
      parseStack := parseStack + [result];
      nodeStack := nodeStack + [result];
      popsMatched := popsMatched && at + size == n;
    }

    /** reduceRecursively: reduces by the first match while there is one.
        The source recurses without bound (a rule whose single part is its own
        result type never stops); fuel bounds the number of reductions, and
        settled says the stack was left with no match. Started on a stack
        whose matches all end at its top, every reduction pops exactly the
        nodes its rule matched. */
    method ReduceRecursively(fuel: nat) returns (settled: bool)
      requires Valid()
      modifies this, parseStack
      ensures Valid()
      ensures sourceStack == old(sourceStack) && rules == old(rules) && shifted == old(shifted)
      ensures settled ==> MatchFree(rules, parseStack, astToken)
      ensures old(MatchesOnlyAtTop(rules, parseStack, astToken)) ==> popsMatched == old(popsMatched)
      ensures |parseStack| <= old(|parseStack|)
      ensures forall x | x in parseStack :: x in old(parseStack) || fresh(x)
      ensures |nodeManager| >= old(|nodeManager|) && nodeManager[..old(|nodeManager|)] == old(nodeManager)
      decreases fuel
    {
      var found, ri, at := FindMatch();
      if !found {
        return true;
      }
      if fuel == 0 {
        return false;
      }
      ghost var s0 := parseStack;
      ghost var topOnly := MatchesOnlyAtTop(rules, s0, astToken);
      var result := Reduce(ri, at);
      if topOnly {
        ReduceAtTop(rules, s0, ri, at, result, astToken);
      }
      settled := ReduceRecursively(fuel - 1);
    }

    /** run: clears the nodes and the stacks, creates a token node for each
        token and inserts it at the front of the source stack, then shifts
        and reduces until the source stack is empty. Tokens are therefore
        shifted in input order; complete is false when a chain of reductions
        ran out of fuel. */
    method Run(tokens: seq<Tk>, fuel: nat) returns (complete: bool)
      requires Valid()
      modifies this
      ensures Valid() && rules == old(rules)
      ensures |nodeManager| >= |tokens|
      ensures forall k | 0 <= k < |tokens| ::
                fresh(nodeManager[k]) && nodeManager[k].astType == astToken && nodeManager[k].impl == TokenImpl(tokens[k])
      ensures complete ==> sourceStack == [] && shifted == nodeManager[..|tokens|]
      ensures complete ==> popsMatched && MatchFree(rules, parseStack, astToken)
    {
      Load(tokens);
      ghost var tokenNodes := nodeManager;
      complete := true;
      while |sourceStack| > 0
        invariant Valid() && rules == old(rules)
        invariant |nodeManager| >= |tokens| && nodeManager[..|tokens|] == tokenNodes
        invariant |shifted| + |sourceStack| == |tokens| && shifted == tokenNodes[..|shifted|]
        invariant forall m | 0 <= m < |sourceStack| :: sourceStack[m] == tokenNodes[|tokens| - 1 - m]
        invariant forall k | 0 <= k < |parseStack| :: fresh(parseStack[k])
        invariant forall x | x in sourceStack :: fresh(x)
        invariant popsMatched && MatchFree(rules, parseStack, astToken)
        decreases |sourceStack|
      {
        ghost var top := sourceStack[|sourceStack| - 1];
        assert fresh(top) by { assert top in sourceStack; }
        Shift();
        assert forall k | 0 <= k < |parseStack| :: fresh(parseStack[k]);
        ghost var before := parseStack;
        var settled := ReduceRecursively(fuel);
        forall k | 0 <= k < |parseStack|
          ensures fresh(parseStack[k])
        {
          if parseStack[k] in before {
            var j :| 0 <= j < |before| && before[j] == parseStack[k];
          }
        }
        if !settled {
          return false;
        }
      }
    }

    /** The first half of run: the nodes and the stacks are cleared, then a
        token node is created for each token, recorded in nodeManager in
        input order and inserted at the front of the source stack, so that
        the last token lies at the bottom. */
    method Load(tokens: seq<Tk>)
      requires Valid()
      modifies this
      ensures Valid() && rules == old(rules)
      ensures |nodeManager| == |tokens| && |sourceStack| == |tokens|
      ensures forall k | 0 <= k < |tokens| ::
                fresh(nodeManager[k]) && nodeManager[k].astType == astToken && nodeManager[k].impl == TokenImpl(tokens[k])
      ensures forall k | 0 <= k < |tokens| :: sourceStack[k] == nodeManager[|tokens| - 1 - k]
      ensures parseStack == [] && nodeStack == [] && shifted == [] && popsMatched
    {
      nodeManager := [];
      sourceStack, parseStack, nodeStack := [], [], [];
      shifted, popsMatched := [], true;
      for k := 0 to |tokens|
        invariant |nodeManager| == k && |sourceStack| == k
        invariant forall m | 0 <= m < k ::
                    fresh(nodeManager[m]) && nodeManager[m].astType == astToken && nodeManager[m].impl == TokenImpl(tokens[m])
        invariant forall m | 0 <= m < k :: sourceStack[m] == nodeManager[k - 1 - m]
        invariant parseStack == [] && nodeStack == [] && shifted == [] && popsMatched
        invariant TokensCarried(sourceStack, astToken) && rules == old(rules)
      {
        var node := new AstNode(astToken, TokenImpl(tokens[k]));
        nodeManager := nodeManager + [node];
        sourceStack := [node] + sourceStack;
      }
    }

    /** The second and third loops of a reduction step: the top nodes, as
        many as size, are popped off the node stack, top first, and the
        result adopts them in that order. */
    method PopAdopt(result: AstNode<Tk, Ast, V>, size: nat)
      requires size <= |nodeStack| && forall k | 0 <= k < |nodeStack| :: nodeStack[k] != result
      modifies this, nodeStack[|nodeStack| - size..], result
      ensures nodeStack == old(nodeStack[..|nodeStack| - size])
      ensures parseStack == old(parseStack) && nodeManager == old(nodeManager)
      ensures sourceStack == old(sourceStack) && rules == old(rules)
      ensures shifted == old(shifted) && popsMatched == old(popsMatched)
      ensures var top := old(nodeStack[|nodeStack| - size..]);
        result.children == old(result.children) + Reverse(top) && result.parent == old(result.parent)
        && forall k | 0 <= k < size :: top[k].parent == result && top[k].children == old(top[k].children)
    {
      ghost var top := nodeStack[|nodeStack| - size..];
      var removed := PopRemoved(size);
      AdoptAll(result, removed);
      forall k | 0 <= k < size
        ensures top[k].parent == result && top[k].children == old(top[k].children)
      {
        assert top[k] == removed[size - 1 - k];
      }
    }

    /** The first loop of a reduction step: pops size nodes off the parse
        stack, each inserted at the front of used, so that used keeps stack
        order. */
    method PopUsed(size: nat) returns (used: seq<AstNode<Tk, Ast, V>>)
      requires size <= |parseStack|
      modifies this
      ensures used == old(parseStack[|parseStack| - size..])
      ensures parseStack == old(parseStack[..|parseStack| - size])
      ensures nodeStack == old(nodeStack) && nodeManager == old(nodeManager)
      ensures sourceStack == old(sourceStack) && rules == old(rules)
      ensures shifted == old(shifted) && popsMatched == old(popsMatched)
    {
      ghost var s0 := parseStack;
      ghost var n := |s0|;
      used := [];
      var i := 0;
      while i < size
        invariant 0 <= i <= size
        invariant parseStack == s0[..n - i] && used == s0[n - i..]
        invariant nodeStack == old(nodeStack) && nodeManager == old(nodeManager)
        invariant sourceStack == old(sourceStack) && rules == old(rules)
        invariant shifted == old(shifted) && popsMatched == old(popsMatched)
      {
        used := [parseStack[|parseStack| - 1]] + used;
        parseStack := parseStack[..|parseStack| - 1];
        i := i + 1;
      }
    }

    /** The second loop of a reduction step: pops size nodes off the node
        stack, each appended to removed, so that removed is in reverse stack
        order. */
    method PopRemoved(size: nat) returns (removed: seq<AstNode<Tk, Ast, V>>)
      requires size <= |nodeStack|
      modifies this
      ensures removed == Reverse(old(nodeStack[|nodeStack| - size..]))
      ensures nodeStack == old(nodeStack[..|nodeStack| - size])
      ensures parseStack == old(parseStack) && nodeManager == old(nodeManager)
      ensures sourceStack == old(sourceStack) && rules == old(rules)
      ensures shifted == old(shifted) && popsMatched == old(popsMatched)
    {
      ghost var s0 := nodeStack;
      ghost var n := |s0|;
      removed := [];
      var i := 0;
      while i < size
        invariant 0 <= i <= size
        invariant nodeStack == s0[..n - i]
        invariant |removed| == i && forall k | 0 <= k < i :: removed[k] == s0[n - 1 - k]
        invariant parseStack == old(parseStack) && nodeManager == old(nodeManager)
        invariant sourceStack == old(sourceStack) && rules == old(rules)
        invariant shifted == old(shifted) && popsMatched == old(popsMatched)
      {
        removed := removed + [nodeStack[|nodeStack| - 1]];
        nodeStack := nodeStack[..|nodeStack| - 1];
        i := i + 1;
      }
    }
  }

  /** The third loop of a reduction step: the result adopts each removed
      node in turn, so its children grow by exactly those nodes in that
      order and each of them gets it as parent. */
  method AdoptAll<Tk, Ast, V>(result: AstNode<Tk, Ast, V>, removed: seq<AstNode<Tk, Ast, V>>)
    requires forall k | 0 <= k < |removed| :: removed[k] != result
    modifies result, removed
    ensures result.children == old(result.children) + removed && result.parent == old(result.parent)
    ensures forall k | 0 <= k < |removed| ::
      removed[k].parent == result && removed[k].children == old(removed[k].children)
  {
    var i := 0;
    while i < |removed|
      invariant 0 <= i <= |removed|
      invariant result.children == old(result.children) + removed[..i] && result.parent == old(result.parent)
      invariant forall k | 0 <= k < i :: removed[k].parent == result
      invariant forall k | 0 <= k < |removed| :: removed[k].children == old(removed[k].children)
    {
      result.EmplaceChild(removed[i]);
      i := i + 1;
    }
  }
}
