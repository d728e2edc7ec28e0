/**
 * The group stack of the query builder in src/realm/query.cpp.
 *
 * A Query keeps a non-empty stack of groups. group() and Not() push a group,
 * end_group() pops one and hands its tree to the group below, and every node added
 * goes to the top group, whose state decides whether it becomes a conjunct, the
 * first conjunct of a new disjunct, or a conjunct of the last disjunct. A group
 * opened by Not() closes itself as soon as it receives a node.
 *
 * The condition nodes and ParentNode::add_child live in headers that are not part
 * of this model: a tree is read here as a chain of conjuncts, and add_child as
 * appending a chain to a chain.
 */
module QueryBuilder {
  import opened Wrappers

  const INT64_MIN: int := -0x8000_0000_0000_0000
  const INT64_MAX: int := 0x7FFF_FFFF_FFFF_FFFF

  datatype Op = Equal | NotEqual | Greater | Less

  /** An integer condition `column <op> value`. */
  datatype Condition = Condition(column: nat, op: Op, value: int)

  /** Whether `x` satisfies `op value`. */
  predicate Holds(op: Op, x: int, value: int)
  {
    match op
    case Equal => x == value
    case NotEqual => x != value
    case Greater => x > value
    case Less => x < value
  }

  /**
   * A node tree: a condition, a chain of conjuncts (the first node and the children
   * added to it), an OrNode over its disjuncts, or a NotNode over its operand. An
   * OrNode or a NotNode made from an empty group holds a null operand (None).
   */
  datatype Node =
    | Cond(cond: Condition)
    | And(first: Node, rest: seq<Node>)
    | OrNode(disjuncts: seq<Option<Node>>)
    | NotNode(operand: Option<Node>)

  /** The conjuncts of a tree, in the order in which they were added. */
  function Links(n: Node): (links: seq<Node>)
    ensures |links| > 0
  {
    if n.And? then [n.first] + n.rest else [n]
  }

  /** ParentNode::add_child: `c` and the children chained to it follow the children of `n`. */
  function AddChild(n: Node, c: Node): (r: Node)
    ensures r.And? && Links(r) == Links(n) + Links(c)
  {
    var links := Links(n) + Links(c);
    And(links[0], links[1..])
  }

  datatype GroupState = Default | OrCondition | OrConditionChildren

  /** QueryGroup: the group's tree, whether it was opened by Not(), and its state. */
  datatype Frame = Frame(root: Option<Node>, pendingNot: bool, state: GroupState)

  const EmptyFrame := Frame(None, false, Default)

  /**
   * What the builder keeps true of a group: a group opened by Not() is closed before
   * Or() could change its state, and a group in an Or state holds an OrNode whose
   * last disjunct, once the Or has children, is a tree.
   */
  predicate FrameOk(f: Frame)
  {
    (f.pendingNot ==> f.state == Default)
    && (f.state != Default ==> f.root.Some? && f.root.value.OrNode?)
    && (f.state == OrConditionChildren ==>
          |f.root.value.disjuncts| > 0 && f.root.value.disjuncts[|f.root.value.disjuncts| - 1].Some?)
  }

  /** The stack is never empty and its bottom group is never a Not() group. */
  predicate StackOk(gs: seq<Frame>)
  {
    |gs| > 0 && !gs[0].pendingNot && forall i :: 0 <= i < |gs| ==> FrameOk(gs[i])
  }

  /** No Not() group is waiting on top of the stack. */
  predicate Settled(gs: seq<Frame>)
    requires |gs| > 0
  {
    !gs[|gs| - 1].pendingNot
  }

  function Top(gs: seq<Frame>): Frame
    requires |gs| > 0
  {
    gs[|gs| - 1]
  }

  /** The stack with its top group replaced. */
  function WithTop(gs: seq<Frame>, f: Frame): (r: seq<Frame>)
    requires |gs| > 0
    ensures |r| == |gs| && Top(r) == f && r[..|r| - 1] == gs[..|gs| - 1]
  {
    gs[..|gs| - 1] + [f]
  }

  /**
   * The switch of Query::add_node on the group's state: in the default state the
   * first node becomes the root and later ones its conjuncts; under OrCondition the
   * node opens a new disjunct and the state becomes OrConditionChildren; under
   * OrConditionChildren the node is added to the last disjunct.
   */
  function AddToFrame(f: Frame, n: Node): (r: Frame)
    requires FrameOk(f)
    ensures FrameOk(r) && r.pendingNot == f.pendingNot && r.root.Some?
    ensures f.state == Default ==> r.state == Default
                                   && r.root == Some(if f.root.None? then n else AddChild(f.root.value, n))
    ensures f.state == OrCondition ==> r.state == OrConditionChildren
                                       && r.root == Some(OrNode(f.root.value.disjuncts + [Some(n)]))
    ensures f.state == OrConditionChildren ==>
              var ds := f.root.value.disjuncts;
              r.state == OrConditionChildren
              && r.root.value.OrNode?
              && |r.root.value.disjuncts| == |ds|
              && r.root.value.disjuncts[..|ds| - 1] == ds[..|ds| - 1]
              && Links(r.root.value.disjuncts[|ds| - 1].value) == Links(ds[|ds| - 1].value) + Links(n)
  {
    match f.state
    case Default =>
      f.(root := Some(if f.root.None? then n else AddChild(f.root.value, n)))
    case OrCondition =>
      f.(root := Some(OrNode(f.root.value.disjuncts + [Some(n)])), state := OrConditionChildren)
    case OrConditionChildren =>
      var ds := f.root.value.disjuncts;
      f.(root := Some(OrNode(ds[..|ds| - 1] + [Some(AddChild(ds[|ds| - 1].value, n))])))
  }

  /** Query::add_node: add to the top group, then close it if it is a Not() group. */
  function AddNodeSpec(gs: seq<Frame>, n: Node): (r: seq<Frame>)
    requires StackOk(gs)
    ensures StackOk(r) && Settled(r) && |r| <= |gs|
    ensures !Top(gs).pendingNot ==> r == WithTop(gs, AddToFrame(Top(gs), n))
    ensures Top(gs).pendingNot ==> |r| < |gs|
    decreases |gs|, 2
  {
    HandlePendingNotSpec(WithTop(gs, AddToFrame(Top(gs), n)))
  }

  /**
   * Query::handle_pending_not: a Not() group that is not the bottom one is closed.
   * Its tree goes into a NotNode that becomes the group's only node (the group is in
   * its default state), and the group is ended.
   */
  function HandlePendingNotSpec(gs: seq<Frame>): (r: seq<Frame>)
    requires StackOk(gs)
    ensures StackOk(r) && Settled(r) && |r| <= |gs|
    ensures Top(gs).pendingNot ==> |r| < |gs|
    ensures !Top(gs).pendingNot ==> r == gs
    decreases |gs|, 1
  {
    var top := Top(gs);
    if |gs| > 1 && top.pendingNot then
      EndGroupSpec(WithTop(gs, Frame(Some(NotNode(top.root)), false, Default)))
    else
      gs
  }

  /**
   * Query::end_group on a stack of at least two groups: the top group is popped, its
   * tree (if any) is added to the group below, and a Not() group left on top is
   * closed. On a shorter stack the stack is left as it is.
   */
  function EndGroupSpec(gs: seq<Frame>): (r: seq<Frame>)
    requires StackOk(gs)
    ensures StackOk(r) && |r| <= |gs|
    ensures |gs| >= 2 ==> |r| < |gs| && Settled(r)
    ensures |gs| < 2 ==> r == gs
    decreases |gs|, 0
  {
    if |gs| < 2 then gs
    else
      var top := Top(gs);
      var below := gs[..|gs| - 1];
      var added := if top.root.Some? then AddNodeSpec(below, top.root.value) else below;
      HandlePendingNotSpec(added)
  }

  /**
   * Query::Or: unless the group already has Or children, its tree is moved into a
   * new OrNode that is added to it; then its state becomes OrCondition. When adding
   * the OrNode closed a Not() group, that group is gone and the state is written to
   * no group of the stack.
   */
  function OrSpec(gs: seq<Frame>): (r: seq<Frame>)
    requires StackOk(gs) && Top(gs).state != OrCondition
    ensures StackOk(r)
  {
    var i := |gs| - 1;
    var top := gs[i];
    var added := if top.state != OrConditionChildren
                 then AddNodeSpec(WithTop(gs, top.(root := None)), OrNode([top.root]))
                 else gs;
    if i < |added| then added[i := added[i].(state := OrCondition)] else added
  }

  /**
   * Or() on a settled group: a group without Or children gets an OrNode holding its
   * tree as the one disjunct so far; a group with Or children keeps its tree. Either
   * way the group is left in the OrCondition state and the groups below are kept.
   */
  lemma OrWraps(gs: seq<Frame>)
    requires StackOk(gs) && Settled(gs) && Top(gs).state != OrCondition
    ensures Top(gs).state == Default ==>
              OrSpec(gs) == WithTop(gs, Frame(Some(OrNode([Top(gs).root])), false, OrCondition))
    ensures Top(gs).state == OrConditionChildren ==> OrSpec(gs) == WithTop(gs, Top(gs).(state := OrCondition))
  {
  }

  /**
   * Or() straight after Not(): the OrNode closes the Not() group, so the enclosing
   * group receives a NotNode over an OrNode with an empty disjunct, and the
   * OrCondition state is written to no group of the stack.
   */
  lemma OrAfterNot(gs: seq<Frame>)
    requires StackOk(gs)
    ensures StackOk(gs + [Frame(None, true, Default)])
    ensures OrSpec(gs + [Frame(None, true, Default)]) == AddNodeSpec(gs, NotNode(Some(OrNode([None]))))
  {
    var p := gs + [Frame(None, true, Default)];
    NotThenAdd(gs, OrNode([None]));
    assert WithTop(p, Top(p).(root := None)) == p;
  }

  /** A Not() group pushed `k` times. */
  function PendingNots(k: nat): (ps: seq<Frame>)
    ensures |ps| == k && forall i :: 0 <= i < k ==> ps[i] == Frame(None, true, Default)
  {
    if k == 0 then [] else PendingNots(k - 1) + [Frame(None, true, Default)]
  }

  /** A node under `k` NotNodes. */
  function Negated(k: nat, n: Node): Node
  {
    if k == 0 then n else NotNode(Some(Negated(k - 1, n)))
  }

  /** Pushing a group keeps the stack well formed and leaves the groups below as they were. */
  lemma Push(gs: seq<Frame>, f: Frame)
    requires StackOk(gs) && FrameOk(f)
    ensures StackOk(gs + [f]) && (gs + [f])[..|gs|] == gs && Top(gs + [f]) == f
  {
    var p := gs + [f];
    forall i | 0 <= i < |p| ensures FrameOk(p[i]) {
      if i < |gs| { assert p[i] == gs[i]; }
    }
  }

  /** Closing a Not() group leaves a stack that needs no further closing. */
  lemma SettledFixed(gs: seq<Frame>)
    requires StackOk(gs) && Settled(gs)
    ensures HandlePendingNotSpec(gs) == gs
  {
  }

  /**
   * Not() followed by one node: the Not() group closes at once, and the stack is
   * what adding the negated node to the group below would give.
   */
  lemma NotThenAdd(gs: seq<Frame>, n: Node)
    requires StackOk(gs)
    ensures StackOk(gs + [Frame(None, true, Default)])
    ensures AddNodeSpec(gs + [Frame(None, true, Default)], n) == AddNodeSpec(gs, NotNode(Some(n)))
  {
    var p := gs + [Frame(None, true, Default)];
    var q := gs + [Frame(Some(n), true, Default)];
    var closed := Frame(Some(NotNode(Some(n))), false, Default);
    Push(gs, Frame(None, true, Default));
    Push(gs, Frame(Some(n), true, Default));
    Push(gs, closed);
    assert WithTop(p, AddToFrame(Top(p), n)) == q;
    assert AddNodeSpec(p, n) == HandlePendingNotSpec(q);
    assert WithTop(q, closed) == gs + [closed];
    assert HandlePendingNotSpec(q) == EndGroupSpec(gs + [closed]);
    SettledFixed(AddNodeSpec(gs, NotNode(Some(n))));
  }

  /**
   * Nested Not() groups are closed one after another by the node that follows
   * them: the node arrives under as many NotNodes as there were Not() calls.
   */
  lemma {:induction false} NestedNotsThenAdd(gs: seq<Frame>, k: nat, n: Node)
    requires StackOk(gs)
    ensures StackOk(gs + PendingNots(k))
    ensures AddNodeSpec(gs + PendingNots(k), n) == AddNodeSpec(gs, Negated(k, n))
    decreases k
  {
    if k == 0 {
      assert gs + PendingNots(0) == gs;
    } else {
      var below := gs + PendingNots(k - 1);
      NestedNotsThenAdd(gs, k - 1, NotNode(Some(n)));
      NotsCommute(k - 1, n);
      assert gs + PendingNots(k) == below + [Frame(None, true, Default)];
      NotThenAdd(below, n);
    }
  }

  /** Wrapping a node in k NotNodes, outermost last or innermost first, is the same. */
  lemma {:induction false} NotsCommute(k: nat, n: Node)
    ensures Negated(k, NotNode(Some(n))) == Negated(k + 1, n)
    decreases k
  {
    if k > 0 {
      NotsCommute(k - 1, n);
    }
  }

  /**
   * group(), a tree built in it, end_group(): the tree is added to the enclosing
   * group as one node.
   */
  lemma GroupThenEnd(gs: seq<Frame>, t: Node)
    requires StackOk(gs)
    ensures StackOk(gs + [Frame(Some(t), false, Default)])
    ensures EndGroupSpec(gs + [Frame(Some(t), false, Default)]) == AddNodeSpec(gs, t)
  {
    Push(gs, Frame(Some(t), false, Default));
    SettledFixed(AddNodeSpec(gs, t));
  }

  /** An empty group ended at once only closes a Not() group waiting below it. */
  lemma EmptyGroupThenEnd(gs: seq<Frame>)
    requires StackOk(gs)
    ensures StackOk(gs + [EmptyFrame])
    ensures EndGroupSpec(gs + [EmptyFrame]) == HandlePendingNotSpec(gs)
  {
    Push(gs, EmptyFrame);
  }

  /**
   * Query::greater_equal over int64: `>= v` becomes `> v - 1`, and `>= INT64_MIN`,
   * which every value satisfies, adds no node. The bound written never overflows.
   */
  function GreaterEqualNode(column: nat, v: int): (r: Option<Node>)
    requires INT64_MIN <= v <= INT64_MAX
    ensures r.Some? <==> v > INT64_MIN
    ensures r.Some? ==> r.value.Cond? && r.value.cond.column == column && r.value.cond.op == Greater
                        && INT64_MIN <= r.value.cond.value <= INT64_MAX
                        && forall x :: Holds(Greater, x, r.value.cond.value) <==> x >= v
    ensures r.None? ==> v == INT64_MIN
  {
    if v > INT64_MIN then Some(Cond(Condition(column, Greater, v - 1))) else None
  }

  /**
   * Query::less_equal over int64: `<= v` becomes `< v + 1`, and `<= INT64_MAX` adds
   * no node. The bound written never overflows.
   */
  function LessEqualNode(column: nat, v: int): (r: Option<Node>)
    requires INT64_MIN <= v <= INT64_MAX
    ensures r.Some? <==> v < INT64_MAX
    ensures r.Some? ==> r.value.Cond? && r.value.cond.column == column && r.value.cond.op == Less
                        && INT64_MIN <= r.value.cond.value <= INT64_MAX
                        && forall x :: Holds(Less, x, r.value.cond.value) <==> x <= v
    ensures r.None? ==> v == INT64_MAX
  {
    if v < INT64_MAX then Some(Cond(Condition(column, Less, v + 1))) else None
  }

  /** The tree the group of Query::between holds when it is ended. */
  function BetweenTree(column: nat, from: int, to: int): (t: Option<Node>)
    requires INT64_MIN <= from <= INT64_MAX && INT64_MIN <= to <= INT64_MAX
  {
    match (GreaterEqualNode(column, from), LessEqualNode(column, to))
    case (None, None) => None
    case (Some(g), None) => Some(g)
    case (None, Some(l)) => Some(l)
    case (Some(g), Some(l)) => Some(AddChild(g, l))
  }

  /** Query::between: group(), greater_equal(from), less_equal(to), end_group(). */
  function BetweenSpec(gs: seq<Frame>, column: nat, from: int, to: int): (r: seq<Frame>)
    requires StackOk(gs)
    requires INT64_MIN <= from <= INT64_MAX && INT64_MIN <= to <= INT64_MAX
    ensures StackOk(r)
  {
    var g := gs + [EmptyFrame];
    Push(gs, EmptyFrame);
    var ge := GreaterEqualNode(column, from);
    var g1 := if ge.Some? then AddNodeSpec(g, ge.value) else g;
    var le := LessEqualNode(column, to);
    var g2 := if le.Some? then AddNodeSpec(g1, le.value) else g1;
    EndGroupSpec(g2)
  }

  /**
   * between adds its bounds to the enclosing group as one node: both conditions
   * chained when both are needed, one of them, or, when neither is, nothing
   * beyond closing a Not() group waiting on top.
   */
  lemma BetweenAddsTree(gs: seq<Frame>, column: nat, from: int, to: int)
    requires StackOk(gs)
    requires INT64_MIN <= from <= INT64_MAX && INT64_MIN <= to <= INT64_MAX
    ensures var t := BetweenTree(column, from, to);
            BetweenSpec(gs, column, from, to)
            == if t.Some? then AddNodeSpec(gs, t.value) else HandlePendingNotSpec(gs)
  {
    var g := gs + [EmptyFrame];
    assert g[..|g| - 1] == gs;
    var ge := GreaterEqualNode(column, from);
    var le := LessEqualNode(column, to);
    var t := BetweenTree(column, from, to);
    EmptyGroupThenEnd(gs);
    if t.Some? {
      assert Top(g) == EmptyFrame;
      var g1 := if ge.Some? then AddNodeSpec(g, ge.value) else g;
      assert g1 == gs + [Frame(ge, false, Default)];
      var g2 := if le.Some? then AddNodeSpec(g1, le.value) else g1;
      assert g2 == gs + [Frame(t, false, Default)];
      GroupThenEnd(gs, t.value);
    }
  }

  /** between leaves the stack as deep as it was, once a waiting Not() group is closed. */
  lemma BetweenKeepsDepth(gs: seq<Frame>, column: nat, from: int, to: int)
    requires StackOk(gs) && Settled(gs)
    requires INT64_MIN <= from <= INT64_MAX && INT64_MIN <= to <= INT64_MAX
    ensures |BetweenSpec(gs, column, from, to)| == |gs|
  {
    BetweenAddsTree(gs, column, from, to);
  }

  /**
   * Query::find_best_node: the index of the first child of least cost
   * (std::min_element), or the number of children when there are none.
   */
  function FindBestNode(costs: seq<nat>): (best: nat)
    ensures |costs| == 0 ==> best == 0
    ensures |costs| > 0 ==> best < |costs|
    ensures |costs| > 0 ==> forall i :: 0 <= i < |costs| ==> costs[best] <= costs[i]
    ensures |costs| > 0 ==> forall i :: 0 <= i < best ==> costs[best] < costs[i]
  {
    if |costs| <= 1 then 0
    else
      var b := FindBestNode(costs[..|costs| - 1]);
      if costs[|costs| - 1] < costs[b] then |costs| - 1 else b
  }

  /**
   * A query: its group stack, the error recorded by the builder, and whether it is
   * restricted to a view. root_node() is the tree of the bottom group.
   */
  class Query {
    var groups: seq<Frame>
    var errorCode: string
    const hasView: bool

    ghost predicate Valid()
      reads this
    {
      StackOk(groups)
    }

    /** Query::create: one empty group. */
    constructor (hasView: bool)
      ensures Valid() && groups == [EmptyFrame] && errorCode == "" && this.hasView == hasView
    {
      groups := [EmptyFrame];
      errorCode := "";
      this.hasView := hasView;
    }

    function Root(): (r: Option<Node>)
      reads this
      requires Valid()
    {
      groups[0].root
    }

    /** 1 while a Not() group waits on top of the stack: part of the recursion measure. */
    function TopPending(): nat
      reads this
    {
      if |groups| > 0 && groups[|groups| - 1].pendingNot then 1 else 0
    }

    /** Query::group: a new empty group on top. */
    method Group()
      requires Valid()
      modifies this`groups
      ensures Valid() && groups == old(groups) + [EmptyFrame]
    {
      groups := groups + [EmptyFrame];
      assert forall i :: 0 <= i < |groups| - 1 ==> groups[i] == old(groups)[i];
    }

    /** Query::Not: a new group that will negate the next node it receives. */
    method Not()
      requires Valid()
      modifies this`groups
      ensures Valid() && groups == old(groups) + [Frame(None, true, Default)]
    {
      Group();
      groups := groups[|groups| - 1 := groups[|groups| - 1].(pendingNot := true)];
      assert forall i :: 0 <= i < |groups| - 1 ==> groups[i] == old(groups)[i];
    }

    /** Query::add_node. */
    method AddNode(n: Node)
      requires Valid()
      modifies this`groups, this`errorCode
      ensures Valid() && groups == AddNodeSpec(old(groups), n) && errorCode == old(errorCode)
      decreases |groups|, TopPending(), 2
    {
      var i := |groups| - 1;
      groups := groups[i := AddToFrame(groups[i], n)];
      assert groups == WithTop(old(groups), AddToFrame(Top(old(groups)), n));
      HandlePendingNot();
    }

    /** Query::handle_pending_not. */
    method HandlePendingNot()
      requires Valid()
      modifies this`groups, this`errorCode
      ensures Valid() && groups == HandlePendingNotSpec(old(groups)) && errorCode == old(errorCode)
      decreases |groups|, TopPending(), 1
    {
      var i := |groups| - 1;
      var current := groups[i];
      if |groups| > 1 && current.pendingNot {
        var notNode := NotNode(current.root);
        groups := groups[i := current.(root := None, pendingNot := false)];
        AddNode(notNode);
        assert groups == WithTop(old(groups), Frame(Some(notNode), false, Default));
        EndGroup();
      }
    }

    /** Query::end_group: "Unbalanced group" when there is no group to end. */
    method EndGroup()
      requires Valid()
      modifies this`groups, this`errorCode
      ensures Valid()
      ensures |old(groups)| < 2 ==> groups == old(groups) && errorCode == "Unbalanced group"
      ensures |old(groups)| >= 2 ==> groups == EndGroupSpec(old(groups)) && errorCode == old(errorCode)
      decreases |groups|, TopPending(), 0
    {
      if |groups| < 2 {
        errorCode := "Unbalanced group";
        return;
      }
      var endRoot := groups[|groups| - 1].root;
      groups := groups[..|groups| - 1];
      if endRoot.Some? {
        AddNode(endRoot.value);
      }
      HandlePendingNot();
    }

    /**
     * Query::Or. A second Or() in a row would hand the new OrNode to a group whose
     * root has just been moved out; the caller must not do that.
     */
    method Or()
      requires Valid() && Top(groups).state != OrCondition
      modifies this`groups, this`errorCode
      ensures Valid() && groups == OrSpec(old(groups)) && errorCode == old(errorCode)
    {
      var i := |groups| - 1;
      var current := groups[i];
      if current.state != OrConditionChildren {
        groups := groups[i := current.(root := None)];
        AddNode(OrNode([current.root]));
      }
      if i < |groups| {
        groups := groups[i := groups[i].(state := OrCondition)];
      }
    }

    /** Query::greater_equal on an int64 column. */
    method GreaterEqual(column: nat, v: int)
      requires Valid() && INT64_MIN <= v <= INT64_MAX
      modifies this`groups, this`errorCode
      ensures Valid() && errorCode == old(errorCode)
      ensures var node := GreaterEqualNode(column, v);
              groups == if node.Some? then AddNodeSpec(old(groups), node.value) else old(groups)
    {
      if v > INT64_MIN {
        AddNode(Cond(Condition(column, Greater, v - 1)));
      }
    }

    /** Query::less_equal on an int64 column. */
    method LessEqual(column: nat, v: int)
      requires Valid() && INT64_MIN <= v <= INT64_MAX
      modifies this`groups, this`errorCode
      ensures Valid() && errorCode == old(errorCode)
      ensures var node := LessEqualNode(column, v);
              groups == if node.Some? then AddNodeSpec(old(groups), node.value) else old(groups)
    {
      if v < INT64_MAX {
        AddNode(Cond(Condition(column, Less, v + 1)));
      }
    }

    /** Query::between on an int64 column. */
    method Between(column: nat, from: int, to: int)
      requires Valid()
      requires INT64_MIN <= from <= INT64_MAX && INT64_MIN <= to <= INT64_MAX
      modifies this`groups, this`errorCode
      ensures Valid() && groups == BetweenSpec(old(groups), column, from, to)
      ensures errorCode == old(errorCode)
    {
      Group();
      GreaterEqual(column, from);
      LessEqual(column, to);
      EndGroup();
    }

    /**
     * Query::validate. `nodeError` is what the root node's own validate() reports;
     * that code is not part of this model.
     */
    function Validate(nodeError: string): (msg: string)
      reads this
      requires Valid()
      ensures errorCode != "" ==> msg == errorCode
      ensures errorCode == "" && Root().None? ==> msg == "Syntax error"
      ensures errorCode == "" && Root().Some? ==> msg == nodeError
    {
      if errorCode != "" then errorCode
      else if groups[0].root.None? then "Syntax error"
      else nodeError
    }

    /**
     * Query::get_description. `described` is what the root node's
     * describe_expression gives; that code is not part of this model. A query
     * restricted to a view cannot be described.
     */
    function Description(described: string): (r: Result<string>)
      reads this
      requires Valid()
      ensures Root().None? ==> r == Ok("TRUEPREDICATE")
      ensures Root().Some? ==> (r.Err? <==> hasView)
      ensures Root().Some? && !hasView ==> r == Ok(described)
    {
      if groups[0].root.Some? then
        if hasView then Err("Serialisation of a query constrianed by a view is not currently supported")
        else Ok(described)
      else Ok("TRUEPREDICATE")
    }
  }

  /** The group stack of a new query. */
  const NewStack: seq<Frame> := [EmptyFrame]

  /** Query::and_query: the root of `q`, if any, is added as one node. */
  function AndQuery(gs: seq<Frame>, q: seq<Frame>): (r: seq<Frame>)
    requires StackOk(gs) && StackOk(q)
    ensures StackOk(r)
  {
    if q[0].root.Some? then AddNodeSpec(gs, q[0].root.value) else gs
  }

  /** Query::operator&&: an operand without conditions yields the other operand. */
  function AndOp(a: seq<Frame>, b: seq<Frame>): (r: seq<Frame>)
    requires StackOk(a) && StackOk(b)
    ensures StackOk(r)
    ensures a[0].root.None? ==> r == b
    ensures a[0].root.Some? && b[0].root.None? ==> r == a
  {
    if a[0].root.None? then b
    else if b[0].root.None? then a
    else AndQuery(AndQuery(NewStack, a), b)
  }

  /** Query::operator||. */
  function OrOp(a: seq<Frame>, b: seq<Frame>): (r: seq<Frame>)
    requires StackOk(a) && StackOk(b)
    ensures StackOk(r)
  {
    var q := AndQuery(NewStack, a);
    AndQuery(OrSpec(q), b)
  }

  /** Query::operator!: negating a query without conditions is an error. */
  function NegateOp(a: seq<Frame>): (r: Result<seq<Frame>>)
    requires StackOk(a)
    ensures r.Err? <==> a[0].root.None?
    ensures r.Ok? ==> StackOk(r.value)
  {
    if a[0].root.None? then Err("negation of empty query is not supported")
    else
      var p := NewStack + [Frame(None, true, Default)];
      NotThenAdd(NewStack, a[0].root.value);
      Ok(AddNodeSpec(p, a[0].root.value))
  }

  /** `a && b` on two queries with conditions is one query whose root chains both roots. */
  lemma AndOpChains(a: seq<Frame>, b: seq<Frame>)
    requires StackOk(a) && StackOk(b) && a[0].root.Some? && b[0].root.Some?
    ensures AndOp(a, b) == [Frame(Some(AddChild(a[0].root.value, b[0].root.value)), false, Default)]
  {
  }

  /** `a || b` is one query whose root is an OrNode with the two roots as disjuncts. */
  lemma OrOpDisjuncts(a: seq<Frame>, b: seq<Frame>)
    requires StackOk(a) && StackOk(b) && b[0].root.Some?
    ensures OrOp(a, b) == [Frame(Some(OrNode([a[0].root, b[0].root])), false, OrConditionChildren)]
  {
    var q := AndQuery(NewStack, a);
    assert q == [Frame(a[0].root, false, Default)];
    var o := [Frame(Some(OrNode([a[0].root])), false, OrCondition)];
    assert AddNodeSpec(WithTop(q, EmptyFrame), OrNode([a[0].root]))
        == [Frame(Some(OrNode([a[0].root])), false, Default)];
    assert OrSpec(q) == o;
    assert AndQuery(o, b) == AddNodeSpec(o, b[0].root.value);
    assert [a[0].root] + [Some(b[0].root.value)] == [a[0].root, b[0].root];
  }

  /** `!a` is one query whose root is a NotNode over the root of `a`. */
  lemma NegateOpWraps(a: seq<Frame>)
    requires StackOk(a) && a[0].root.Some?
    ensures NegateOp(a) == Ok([Frame(Some(NotNode(a[0].root)), false, Default)])
  {
    NotThenAdd(NewStack, a[0].root.value);
  }
}
