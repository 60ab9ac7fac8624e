/**
 The index from ATN states to the grammar tokens that introduced them
 (ParsingUtils.getStateToGrammarRegionMap), used to jump from an input token,
 through the ATN state that matched it, to the grammar text.
 */
module RegionIndex {
  import opened Wrappers

  /** Node types of the grammar AST that matter here; every other type is OtherType. */
  datatype NodeType = StringLiteral | TokenRef | Set | OtherType(code: int)

  /** A token of the grammar source text. */
  datatype GrammarToken = GrammarToken(ttype: int, text: string, startIndex: int, stopIndex: int)

  /** A node of the grammar AST: its type, its token, the number of the ATN
      state built for it if any, and the type of its parent node. */
  datatype GrammarNode = GrammarNode(nodeType: NodeType, token: GrammarToken, atnState: Option<int>, parentType: NodeType)

  /** A terminal node: a string literal, a token reference or a set. */
  predicate IsTerminal(n: GrammarNode) {
    n.nodeType.StringLiteral? || n.nodeType.TokenRef? || n.nodeType.Set?
  }

  /**
   getNodesWithType over the three terminal types: the terminal nodes of the
   AST, kept in the order the AST's nodes are given (its traversal order).
   */
  function TerminalNodes(nodes: seq<GrammarNode>): (r: seq<GrammarNode>)
    ensures forall n :: n in r <==> n in nodes && IsTerminal(n)
  {
    if nodes == [] then []
    else (if IsTerminal(nodes[0]) then [nodes[0]] else []) + TerminalNodes(nodes[1..])
  }

  /** The map the loop builds from the given nodes, one put per node that has an ATN state. */
  function RegionMapOf(nodes: seq<GrammarNode>): map<int, GrammarToken>
  {
    if nodes == [] then map[]
    else
      var m := RegionMapOf(nodes[..|nodes| - 1]);
      var n := nodes[|nodes| - 1];
      if n.atnState.Some? then m[n.atnState.value := n.token] else m
  }

  /** A state is a key exactly when some node carried it. */
  lemma {:induction false} RegionMapKeys(nodes: seq<GrammarNode>, state: int)
    ensures state in RegionMapOf(nodes) <==> exists n :: n in nodes && n.atnState == Some(state)
  {
    if nodes != [] {
      var front := nodes[..|nodes| - 1];
      RegionMapKeys(front, state);
      assert nodes == front + [nodes[|nodes| - 1]];
      if exists n :: n in front && n.atnState == Some(state) {
        var n :| n in front && n.atnState == Some(state);
        assert n in nodes;
      }
    }
  }

  /** A state maps to the token of the last node that carried it: later nodes
      overwrite earlier ones. */
  lemma {:induction false} RegionMapLastWins(nodes: seq<GrammarNode>, k: nat)
    requires k < |nodes| && nodes[k].atnState.Some?
    requires forall j :: k < j < |nodes| ==> nodes[j].atnState != nodes[k].atnState
    ensures nodes[k].atnState.value in RegionMapOf(nodes)
    ensures RegionMapOf(nodes)[nodes[k].atnState.value] == nodes[k].token
  {
    if k < |nodes| - 1 {
      var front := nodes[..|nodes| - 1];
      RegionMapLastWins(front, k);
    }
  }

  /** The terminal nodes without an ATN state that the source reports: those
      whose parent is not a set (members of a set are expected to lack one). */
  predicate Reported(n: GrammarNode) {
    n.atnState.None? && !n.parentType.Set?
  }

  /**
   ParsingUtils.getStateToGrammarRegionMap: an empty map without an AST;
   otherwise, over the terminal nodes in order, each node with an ATN state
   maps that state to its own token, and each node without one adds nothing
   and is reported unless its parent is a set. The loop never stops early.
   */
  method GetStateToGrammarRegionMap(ast: Option<seq<GrammarNode>>)
    returns (m: map<int, GrammarToken>, reported: seq<GrammarNode>)
    ensures ast.None? ==> m == map[] && reported == []
    ensures ast.Some? ==> m == RegionMapOf(TerminalNodes(ast.value))
    ensures ast.Some? ==> forall n :: n in reported <==> n in ast.value && IsTerminal(n) && Reported(n)
  {
    m := map[];
    reported := [];
    if ast.None? {
      return;
    }
    var terminalNodes := TerminalNodes(ast.value);
    for k := 0 to |terminalNodes|
      invariant m == RegionMapOf(terminalNodes[..k])
      invariant forall n :: n in reported <==> n in terminalNodes[..k] && Reported(n)
    {
      var n := terminalNodes[k];
      assert terminalNodes[..k + 1] == terminalNodes[..k] + [n];
      if n.atnState.Some? {
        m := m[n.atnState.value := n.token];
      } else {
        if !n.parentType.Set? {
          reported := reported + [n];
        }
      }
    }
    assert terminalNodes[..|terminalNodes|] == terminalNodes;
  }

  /** The filter keeps order: the terminal nodes of a concatenation are those
      of its first part followed by those of its second. */
  lemma {:induction false} TerminalNodesAppend(xs: seq<GrammarNode>, ys: seq<GrammarNode>)
    ensures TerminalNodes(xs + ys) == TerminalNodes(xs) + TerminalNodes(ys)
  {
    if xs == [] {
      assert xs + ys == ys;
    } else {
      assert (xs + ys)[1..] == xs[1..] + ys;
      TerminalNodesAppend(xs[1..], ys);
    }
  }

  /** A single node is kept exactly when it is terminal. */
  lemma TerminalNodesSingleton(n: GrammarNode)
    ensures TerminalNodes([n]) == if IsTerminal(n) then [n] else []
  {
    assert [n][1..] == [];
  }

  /** Node k is terminal, carries state, and no later terminal node does. */
  ghost predicate LastTerminalCarrier(nodes: seq<GrammarNode>, state: int, k: int) {
    && 0 <= k < |nodes| && IsTerminal(nodes[k]) && nodes[k].atnState == Some(state)
    && forall j :: k < j < |nodes| ==> !(IsTerminal(nodes[j]) && nodes[j].atnState == Some(state))
  }

  /**
   The keys of the index are exactly the ATN states of terminal nodes of the
   AST, and each key maps to the token of the last terminal node, in AST
   order, that carries that state.
   */
  lemma {:induction false} RegionIndexMeaning(nodes: seq<GrammarNode>, state: int)
    ensures var m := RegionMapOf(TerminalNodes(nodes));
      && (state in m <==> exists n :: n in nodes && IsTerminal(n) && n.atnState == Some(state))
      && (state in m ==> exists k :: LastTerminalCarrier(nodes, state, k) && m[state] == nodes[k].token)
  {
    RegionMapKeys(TerminalNodes(nodes), state);
    if nodes != [] {
      var front := nodes[..|nodes| - 1];
      var n := nodes[|nodes| - 1];
      assert nodes == front + [n];
      TerminalNodesAppend(front, [n]);
      TerminalNodesSingleton(n);
      var ts := TerminalNodes(front);
      var m := RegionMapOf(TerminalNodes(nodes));
      if IsTerminal(n) {
        assert TerminalNodes(nodes) == ts + [n];
        assert (ts + [n])[..|ts|] == ts;
      } else {
        assert TerminalNodes(nodes) == ts;
      }
      if state in m {
        if IsTerminal(n) && n.atnState == Some(state) {
          assert LastTerminalCarrier(nodes, state, |nodes| - 1);
        } else {
          assert m[state] == RegionMapOf(ts)[state];
          RegionIndexMeaning(front, state);
          var k :| LastTerminalCarrier(front, state, k) && RegionMapOf(ts)[state] == front[k].token;
          assert LastTerminalCarrier(nodes, state, k);
        }
      }
    }
  }
}
