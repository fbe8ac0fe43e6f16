/**
 Quote context of Emacs Lisp symbols (`elisp_quoted_symbols` in `host/src/code_highlight.rs`):
 an explicit-stack walk over the syntax tree, checked against inherited-mode semantics.
 */
module Quasiquote {
  datatype Kind = SpecialForm | Quote | Unquote | Symbol | OtherKind

  datatype Node = Node(kind: Kind, startByte: nat, named: bool, children: seq<Node>)

  datatype Mode = Evaluated | Quoted | Quasiquoted(depth: nat)

  type Code = seq<int>

  /** Whether the node's first byte is a backquote. */
  predicate AtBackquote(node: Node, code: Code) {
    node.startByte < |code| && code[node.startByte] == '`' as int
  }

  predicate IsQuoteForm(node: Node) {
    node.kind == SpecialForm && |node.children| > 1 && node.children[1].kind == Quote
  }

  function ModeOf(node: Node, parent: Mode, code: Code): Mode {
    if IsQuoteForm(node) then Quoted
    else
      match node.kind
      case Quote =>
        if parent.Quoted? then Quoted
        else if parent.Quasiquoted? && AtBackquote(node, code) then Quasiquoted(parent.depth + 1)
        else if AtBackquote(node, code) then Quasiquoted(1)
        else Quoted
      case Unquote =>
        if parent.Quasiquoted? then
          if parent.depth <= 1 then Evaluated else Quasiquoted(parent.depth - 1)
        else parent
      case _ => parent
  }

  // Inherited-mode semantics

  /** The start of the node itself, when it is a symbol that is not evaluated. */
  function Own(node: Node, mode: Mode): set<nat> {
    if node.kind == Symbol && mode != Evaluated then {node.startByte} else {}
  }

  /** The starts of all non-evaluated symbols in the subtree. */
  function Marked(node: Node, parent: Mode, code: Code): set<nat>
    decreases node, 1
  {
    var mode := ModeOf(node, parent, code);
    Own(node, mode) + MarkedAll(node.children, mode, code)
  }

  function MarkedAll(nodes: seq<Node>, mode: Mode, code: Code): set<nat>
    decreases nodes, 0
  {
    if nodes == [] then {}
    else (if nodes[0].named then Marked(nodes[0], mode, code) else {}) + MarkedAll(nodes[1..], mode, code)
  }

  // The walk

  type Pending = seq<(Node, Mode)>

  function MarkedPending(pending: Pending, code: Code): set<nat> {
    if pending == [] then {}
    else MarkedPending(pending[..|pending| - 1], code)
         + Marked(pending[|pending| - 1].0, pending[|pending| - 1].1, code)
  }

  lemma {:induction false} MarkedPendingAppend(a: Pending, b: Pending, code: Code)
    ensures MarkedPending(a + b, code) == MarkedPending(a, code) + MarkedPending(b, code)
  {
    if b == [] {
      assert a + b == a;
    } else {
      assert (a + b)[..|a + b| - 1] == a + b[..|b| - 1];
      MarkedPendingAppend(a, b[..|b| - 1], code);
    }
  }

  /** The named children, each with the mode it inherits. */
  function Spawn(nodes: seq<Node>, mode: Mode): Pending {
    if nodes == [] then []
    else
      var last := nodes[|nodes| - 1];
      Spawn(nodes[..|nodes| - 1], mode) + if last.named then [(last, mode)] else []
  }

  lemma {:induction false} MarkedAllSnoc(nodes: seq<Node>, last: Node, mode: Mode, code: Code)
    ensures MarkedAll(nodes + [last], mode, code) ==
            MarkedAll(nodes, mode, code) + if last.named then Marked(last, mode, code) else {}
  {
    if nodes == [] {
      assert [] + [last] == [last] && [last][1..] == [];
    } else {
      assert (nodes + [last])[1..] == nodes[1..] + [last];
      MarkedAllSnoc(nodes[1..], last, mode, code);
    }
  }

  lemma {:induction false} SpawnCovers(nodes: seq<Node>, mode: Mode, code: Code)
    ensures MarkedPending(Spawn(nodes, mode), code) == MarkedAll(nodes, mode, code)
  {
    if nodes != [] {
      var front, last := nodes[..|nodes| - 1], nodes[|nodes| - 1];
      assert nodes == front + [last];
      SpawnCovers(front, mode, code);
      MarkedAllSnoc(front, last, mode, code);
      if last.named {
        MarkedPendingAppend(Spawn(front, mode), [(last, mode)], code);
        assert [(last, mode)][..0] == [];
      } else {
        assert Spawn(front, mode) + [] == Spawn(front, mode);
      }
    }
  }

  function Size(node: Node): nat
    decreases node, 1
  {
    1 + SizeAll(node.children)
  }

  function SizeAll(nodes: seq<Node>): nat
    decreases nodes, 0
  {
    if nodes == [] then 0 else Size(nodes[0]) + SizeAll(nodes[1..])
  }

  function PendingSize(pending: Pending): nat {
    if pending == [] then 0 else PendingSize(pending[..|pending| - 1]) + Size(pending[|pending| - 1].0)
  }

  lemma {:induction false} PendingSizeAppend(a: Pending, b: Pending)
    ensures PendingSize(a + b) == PendingSize(a) + PendingSize(b)
  {
    if b == [] {
      assert a + b == a;
    } else {
      assert (a + b)[..|a + b| - 1] == a + b[..|b| - 1];
      PendingSizeAppend(a, b[..|b| - 1]);
    }
  }

  lemma {:induction false} SizeAllSnoc(nodes: seq<Node>, last: Node)
    ensures SizeAll(nodes + [last]) == SizeAll(nodes) + Size(last)
  {
    if nodes == [] {
      assert [] + [last] == [last] && [last][1..] == [];
    } else {
      assert (nodes + [last])[1..] == nodes[1..] + [last];
      SizeAllSnoc(nodes[1..], last);
    }
  }

  lemma {:induction false} SpawnSize(nodes: seq<Node>, mode: Mode)
    ensures PendingSize(Spawn(nodes, mode)) <= SizeAll(nodes)
  {
    if nodes != [] {
      var front, last := nodes[..|nodes| - 1], nodes[|nodes| - 1];
      assert nodes == front + [last];
      SpawnSize(front, mode);
      SizeAllSnoc(front, last);
      if last.named {
        PendingSizeAppend(Spawn(front, mode), [(last, mode)]);
        assert [(last, mode)][..0] == [];
      } else {
        assert Spawn(front, mode) + [] == Spawn(front, mode);
      }
    }
  }

  /** Handling any entry of the list, in place of the last: what is still to be found does not change. */
  function Handle(pending: Pending, i: nat, code: Code): Pending
    requires i < |pending|
  {
    var (node, parent) := pending[i];
    pending[..i] + pending[i + 1..] + Spawn(node.children, ModeOf(node, parent, code))
  }

  lemma HandleConserves(pending: Pending, i: nat, code: Code)
    requires i < |pending|
    ensures var (node, parent) := pending[i];
            MarkedPending(pending, code) ==
            Own(node, ModeOf(node, parent, code)) + MarkedPending(Handle(pending, i, code), code)
    ensures PendingSize(Handle(pending, i, code)) < PendingSize(pending)
  {
    var (node, parent) := pending[i];
    var mode := ModeOf(node, parent, code);
    var a, b, c := pending[..i], pending[i + 1..], Spawn(node.children, mode);
    var one: Pending := [pending[i]];
    assert pending == a + one + b;
    assert one[..0] == [];
    MarkedPendingAppend(a + one, b, code);
    MarkedPendingAppend(a, one, code);
    MarkedPendingAppend(a + b, c, code);
    MarkedPendingAppend(a, b, code);
    SpawnCovers(node.children, mode, code);
    PendingSizeAppend(a + one, b);
    PendingSizeAppend(a, one);
    PendingSizeAppend(a + b, c);
    PendingSizeAppend(a, b);
    SpawnSize(node.children, mode);
  }

  method ElispQuotedSymbols(root: Node, code: Code) returns (symbols: set<nat>)
    ensures symbols == Marked(root, Evaluated, code)
  {
    symbols := {};
    var pending: Pending := [(root, Evaluated)];
    assert pending[..0] == [];
    while pending != []
      invariant symbols + MarkedPending(pending, code) == Marked(root, Evaluated, code)
      decreases PendingSize(pending)
    {
      HandleConserves(pending, |pending| - 1, code);
      ghost var next := Handle(pending, |pending| - 1, code);
      var (node, parent) := pending[|pending| - 1];
      pending := pending[..|pending| - 1];
      var mode := ModeOf(node, parent, code);
      if node.kind == Symbol && mode != Evaluated {
        symbols := symbols + {node.startByte};
      }
      ghost var rest := pending;
      var i := 0;
      while i < |node.children|
        invariant 0 <= i <= |node.children|
        invariant pending == rest + Spawn(node.children[..i], mode)
      {
        assert node.children[..i + 1][..i] == node.children[..i];
        if node.children[i].named {
          pending := pending + [(node.children[i], mode)];
        }
        i := i + 1;
      }
      assert node.children[..i] == node.children;
      assert pending == next;
    }
  }

  /** Whatever entry is handled at each step, an emptied list has found the same symbols. */
  lemma {:induction false} AnyOrder(pending: Pending, symbols: set<nat>, picks: seq<nat>, code: Code)
    ensures var (found, left) := Work(pending, symbols, picks, code);
            found + MarkedPending(left, code) == symbols + MarkedPending(pending, code)
    decreases |picks|
  {
    if picks != [] && pending != [] {
      var i := picks[0] % |pending|;
      HandleConserves(pending, i, code);
      var (node, parent) := pending[i];
      AnyOrder(Handle(pending, i, code), symbols + Own(node, ModeOf(node, parent, code)), picks[1..], code);
    }
  }

  /** Handles the entries picked, in turn. */
  function Work(pending: Pending, symbols: set<nat>, picks: seq<nat>, code: Code): (set<nat>, Pending)
    decreases |picks|
  {
    if picks == [] || pending == [] then (symbols, pending)
    else
      var i := picks[0] % |pending|;
      var (node, parent) := pending[i];
      Work(Handle(pending, i, code), symbols + Own(node, ModeOf(node, parent, code)), picks[1..], code)
  }

  // The semantics by paths: a symbol's mode is decided by its ancestors alone

  /** A chain of nodes from the root down, each a named child of the one before. */
  predicate IsChain(chain: seq<Node>) {
    forall i :: 1 <= i < |chain| ==> chain[i] in chain[i - 1].children && chain[i].named
  }

  function ModeAfter(chain: seq<Node>, parent: Mode, code: Code): Mode {
    if chain == [] then parent else ModeAfter(chain[1..], ModeOf(chain[0], parent, code), code)
  }

  /** A chain from `root` to a symbol at `start` that leaves the evaluated mode. */
  ghost predicate Witness(root: Node, parent: Mode, start: nat, chain: seq<Node>, code: Code) {
    && chain != [] && chain[0] == root && IsChain(chain)
    && chain[|chain| - 1].kind == Symbol && chain[|chain| - 1].startByte == start
    && ModeAfter(chain, parent, code) != Evaluated
  }

  /** A start is marked exactly when some chain down to a symbol there ends outside evaluated mode. */
  lemma {:induction false} MarkedByPath(root: Node, parent: Mode, start: nat, code: Code)
    ensures start in Marked(root, parent, code) <==> exists chain :: Witness(root, parent, start, chain, code)
    decreases root, 1
  {
    var mode := ModeOf(root, parent, code);
    if start in Own(root, mode) {
      assert [root][1..] == [];
      assert Witness(root, parent, start, [root], code);
    }
    MarkedAllByPath(root.children, mode, start, code);
    if start in MarkedAll(root.children, mode, code) {
      var c, chain :| c in root.children && c.named && Witness(c, mode, start, chain, code);
      ExtendChain(root, parent, c, start, chain, code);
    }
    if chain :| Witness(root, parent, start, chain, code) {
      if |chain| == 1 {
        assert chain[1..] == [] && ModeAfter(chain[1..], mode, code) == mode;
        assert start in Own(root, mode);
      } else {
        TailOfChain(chain);
        assert Witness(chain[1], mode, start, chain[1..], code);
      }
    }
  }

  lemma ExtendChain(root: Node, parent: Mode, c: Node, start: nat, chain: seq<Node>, code: Code)
    requires c in root.children && c.named && Witness(c, ModeOf(root, parent, code), start, chain, code)
    ensures Witness(root, parent, start, [root] + chain, code)
  {
    assert ([root] + chain)[1..] == chain;
  }

  lemma TailOfChain(chain: seq<Node>)
    requires |chain| > 1 && IsChain(chain)
    ensures IsChain(chain[1..])
  {
    var tail := chain[1..];
    assert forall i :: 0 <= i < |tail| ==> tail[i] == chain[i + 1];
  }

  lemma {:induction false} MarkedAllByPath(nodes: seq<Node>, mode: Mode, start: nat, code: Code)
    ensures start in MarkedAll(nodes, mode, code) <==>
            exists c, chain :: c in nodes && c.named && Witness(c, mode, start, chain, code)
    decreases nodes, 0
  {
    if nodes != [] {
      MarkedByPath(nodes[0], mode, start, code);
      MarkedAllByPath(nodes[1..], mode, start, code);
      assert nodes == [nodes[0]] + nodes[1..];
    }
  }

  // Depth

  predicate WellFormedMode(m: Mode) {
    m.Quasiquoted? ==> m.depth >= 1
  }

  /** Depth is never below one in quasiquote mode. */
  lemma {:induction false} DepthIsPositive(chain: seq<Node>, parent: Mode, code: Code)
    requires WellFormedMode(parent)
    ensures WellFormedMode(ModeAfter(chain, parent, code))
  {
    if chain != [] {
      DepthIsPositive(chain[1..], ModeOf(chain[0], parent, code), code);
    }
  }

  /** A literal quote absorbs everything below it. */
  lemma {:induction false} QuotedAbsorbs(chain: seq<Node>, code: Code)
    ensures ModeAfter(chain, Quoted, code) == Quoted
  {
    if chain != [] {
      QuotedAbsorbs(chain[1..], code);
    }
  }

  /** A special form whose second child is a quote, or a quote node whose text does not start with a backquote. */
  predicate IsLiteralQuote(node: Node, code: Code) {
    || (node.kind == SpecialForm && |node.children| >= 2 && node.children[1].kind == Quote)
    || (node.kind == Quote && !(node.startByte < |code| && code[node.startByte] == 0x60))
  }

  function Shift(node: Node): int {
    if node.kind == Quote then 1 else if node.kind == Unquote then -1 else 0
  }

  /** Backquotes up, unquotes down, never below zero. */
  function SaturatingDepth(chain: seq<Node>): nat {
    if chain == [] then 0
    else
      var d := SaturatingDepth(chain[..|chain| - 1]) + Shift(chain[|chain| - 1]);
      if d < 0 then 0 else d
  }

  function DepthMode(d: nat): Mode {
    if d == 0 then Evaluated else Quasiquoted(d)
  }

  lemma {:induction false} ModeAfterSnoc(chain: seq<Node>, node: Node, parent: Mode, code: Code)
    ensures ModeAfter(chain + [node], parent, code) == ModeOf(node, ModeAfter(chain, parent, code), code)
  {
    if chain == [] {
      assert [] + [node] == [node] && [node][1..] == [];
    } else {
      assert (chain + [node])[1..] == chain[1..] + [node];
      ModeAfterSnoc(chain[1..], node, ModeOf(chain[0], parent, code), code);
    }
  }

  /**
   Along a chain, the mode is quoted exactly when a literal quote is on it; otherwise it is
   the saturating depth, zero meaning evaluated.
   */
  lemma {:induction false} ModeIsDepth(chain: seq<Node>, code: Code)
    ensures ModeAfter(chain, Evaluated, code) ==
            if exists i :: 0 <= i < |chain| && IsLiteralQuote(chain[i], code) then Quoted
            else DepthMode(SaturatingDepth(chain))
  {
    if chain != [] {
      var front, last := chain[..|chain| - 1], chain[|chain| - 1];
      assert chain == front + [last];
      ModeIsDepth(front, code);
      ModeAfterSnoc(front, last, Evaluated, code);
      if i :| 0 <= i < |front| && IsLiteralQuote(front[i], code) {
        assert IsLiteralQuote(chain[i], code);
      } else {
        assert forall i :: 0 <= i < |front| ==> chain[i] == front[i];
      }
    }
  }

  function Net(chain: seq<Node>): int {
    if chain == [] then 0 else Net(chain[..|chain| - 1]) + Shift(chain[|chain| - 1])
  }

  /**
   The saturating depth is the largest surplus of backquotes over unquotes on any lower part
   of the chain, so it is at most the number of nodes on the chain.
   */
  lemma {:induction false} DepthIsLargestSurplus(chain: seq<Node>)
    ensures exists k :: 0 <= k <= |chain| && SaturatingDepth(chain) == Net(chain[k..])
    ensures forall k :: 0 <= k <= |chain| ==> Net(chain[k..]) <= SaturatingDepth(chain)
    ensures SaturatingDepth(chain) <= |chain|
  {
    if chain == [] {
      assert SaturatingDepth(chain) == Net(chain[0..]);
    } else {
      var n := |chain| - 1;
      var front := chain[..n];
      DepthIsLargestSurplus(front);
      forall k | 0 <= k <= n
        ensures Net(chain[k..]) == Net(front[k..]) + Shift(chain[n])
      {
        assert chain[k..][..n - k] == front[k..];
      }
      var k :| 0 <= k <= n && SaturatingDepth(front) == Net(front[k..]);
      assert Net(chain[n + 1..]) == 0;
      if SaturatingDepth(chain) == 0 {
        assert SaturatingDepth(chain) == Net(chain[n + 1..]);
      } else {
        assert SaturatingDepth(chain) == Net(chain[k..]);
      }
    }
  }

  /** The surplus of backquotes over unquotes on the last part of some chain. */
  ghost predicate Surplus(chain: seq<Node>) {
    exists k :: 0 <= k <= |chain| && Net(chain[k..]) > 0
  }

  /** A chain of named children from the root down to a symbol at `start`. */
  ghost predicate LeadsTo(root: Node, start: nat, chain: seq<Node>) {
    && chain != [] && chain[0] == root && IsChain(chain)
    && chain[|chain| - 1].kind == Symbol && chain[|chain| - 1].startByte == start
  }

  ghost predicate QuotedChain(root: Node, start: nat, chain: seq<Node>, code: Code) {
    LeadsTo(root, start, chain) && (Surplus(chain) || exists i :: 0 <= i < |chain| && IsLiteralQuote(chain[i], code))
  }

  /**
   The walk marks a start exactly when some symbol there stands below a literal quote, or below
   nodes the lowest of which hold more backquotes than unquotes.
   */
  lemma QuotedExactly(root: Node, start: nat, code: Code)
    ensures start in Marked(root, Evaluated, code) <==> exists chain :: QuotedChain(root, start, chain, code)
  {
    MarkedByPath(root, Evaluated, start, code);
    forall chain
      ensures Witness(root, Evaluated, start, chain, code) <==> QuotedChain(root, start, chain, code)
    {
      ModeIsDepth(chain, code);
      DepthIsLargestSurplus(chain);
    }
  }
}
