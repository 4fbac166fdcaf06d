// The explicit-stack admission of a condition tree (abac/abac.go): depth, per-node
// validity and the total number of literals, checked node by node in pre-order.
module ConditionValidation {
  import opened Ordering
  import opened Decisions
  import opened Conditions

  datatype Limits = Limits(
    maxRules: nat, maxDepth: nat, maxCost: nat, maxMatches: nat, maxSetSize: nat, maxNamedConditions: nat)

  datatype ValidationError = DepthExceeded | InvalidCondition | TooManyLiterals

  /** The literals one node contributes. */
  function LocalCardinality(c: Condition): nat {
    match c
    case In(_, values) => |values|
    case Equals(_, Strings(items)) => |items|
    case _ => 0
  }

  // ---- The tree, recursively ----

  function Max(a: nat, b: nat): nat { if a > b then a else b }

  function Depths(cs: seq<Condition>): nat
    decreases cs, 0
  {
    if cs == [] then 0 else Max(Depth(cs[0]), Depths(cs[1..]))
  }

  /** The number of nodes on a longest path from the root. */
  function Depth(c: Condition): (d: nat)
    ensures d >= 1
    decreases c, 1
  {
    match c
    case All(cs) => 1 + Depths(cs)
    case Any(cs) => 1 + Depths(cs)
    case Not(child) => if child.Absent? then 1 else 1 + Depth(child)
    case _ => 1
  }

  function Cardinalities(cs: seq<Condition>): nat
    decreases cs, 0
  {
    if cs == [] then 0 else Cardinality(cs[0]) + Cardinalities(cs[1..])
  }

  /** All literals of the tree. */
  function Cardinality(c: Condition): nat
    decreases c, 1
  {
    LocalCardinality(c) +
    match c
    case All(cs) => Cardinalities(cs)
    case Any(cs) => Cardinalities(cs)
    case Not(child) => if child.Absent? then 0 else Cardinality(child)
    case _ => 0
  }

  // ---- The tree, in pre-order ----

  datatype Node = Node(condition: Condition, depth: nat)

  function NodesOf(cs: seq<Condition>, depth: nat): seq<Node>
    decreases cs, 0
  {
    if cs == [] then [] else Nodes(cs[0], depth) + NodesOf(cs[1..], depth)
  }

  function Nodes(c: Condition, depth: nat): seq<Node>
    decreases c, 1
  {
    [Node(c, depth)] +
    match c
    case All(cs) => NodesOf(cs, depth + 1)
    case Any(cs) => NodesOf(cs, depth + 1)
    case Not(child) => if child.Absent? then [] else Nodes(child, depth + 1)
    case _ => []
  }

  /** What is wrong with a node when `used` literals precede it. */
  function Fault(node: Node, limits: Limits, used: nat): Option<ValidationError> {
    if node.depth > limits.maxDepth then Some(DepthExceeded)
    else if !ValidNode(node.condition) then Some(InvalidCondition)
    else if used + LocalCardinality(node.condition) > limits.maxSetSize then Some(TooManyLiterals)
    else None
  }

  function FirstFault(nodes: seq<Node>, limits: Limits, used: nat): Option<ValidationError> {
    if nodes == [] then None
    else if Fault(nodes[0], limits, used).Some? then Fault(nodes[0], limits, used)
    else FirstFault(nodes[1..], limits, used + LocalCardinality(nodes[0].condition))
  }

  function Literals(nodes: seq<Node>): nat {
    if nodes == [] then 0 else LocalCardinality(nodes[0].condition) + Literals(nodes[1..])
  }

  /** Nodes before `k` are fine and node `k` is the one at fault. */
  ghost predicate FaultsAt(nodes: seq<Node>, k: nat, limits: Limits, used: nat, e: ValidationError)
    requires k < |nodes|
  {
    FirstFault(nodes[..k], limits, used) == None && Fault(nodes[k], limits, used + Literals(nodes[..k])) == Some(e)
  }

  lemma FaultsLater(nodes: seq<Node>, k: nat, limits: Limits, used: nat, e: ValidationError)
    requires k + 1 < |nodes| && Fault(nodes[0], limits, used) == None
    requires FaultsAt(nodes[1..], k, limits, used + LocalCardinality(nodes[0].condition), e)
    ensures FaultsAt(nodes, k + 1, limits, used, e)
  {
    var prefix := nodes[..k + 1];
    assert prefix[1..] == nodes[1..][..k];
  }

  /** The reported fault is that of the first offending node. */
  lemma {:induction false} FirstFaultIsFirst(nodes: seq<Node>, limits: Limits, used: nat, e: ValidationError)
    returns (k: nat)
    requires FirstFault(nodes, limits, used) == Some(e)
    ensures k < |nodes| && FaultsAt(nodes, k, limits, used, e)
  {
    if Fault(nodes[0], limits, used).Some? {
      k := 0;
      assert nodes[..0] == [];
    } else {
      var later := FirstFaultIsFirst(nodes[1..], limits, used + LocalCardinality(nodes[0].condition), e);
      FaultsLater(nodes, later, limits, used, e);
      k := later + 1;
    }
  }

  // ---- The loop ----

  /** The nodes still to come: the top of the stack first. */
  function Pending(stack: seq<Node>): seq<Node> {
    if stack == [] then []
    else
      var top := stack[|stack| - 1];
      Nodes(top.condition, top.depth) + Pending(stack[..|stack| - 1])
  }

  function Children(c: Condition): seq<Condition> {
    match c
    case All(cs) => cs
    case Any(cs) => cs
    case Not(child) => if child.Absent? then [] else [child]
    case _ => []
  }

  lemma NodesThenChildren(c: Condition, depth: nat)
    ensures Nodes(c, depth) == [Node(c, depth)] + NodesOf(Children(c), depth + 1)
  {
    if c.Not? && !c.child.Absent? {
      assert [c.child][1..] == [];
      assert NodesOf([c.child], depth + 1) == Nodes(c.child, depth + 1) + NodesOf([], depth + 1);
    }
  }

  /** Pushes the children so that the first one is on top. */
  method PushChildren(stack: seq<Node>, children: seq<Condition>, depth: nat) returns (pushed: seq<Node>)
    ensures Pending(pushed) == NodesOf(children, depth) + Pending(stack)
  {
    pushed := stack;
    var index := |children|;
    assert children[|children|..] == [];
    assert NodesOf([], depth) + Pending(stack) == Pending(stack);
    while index > 0
      invariant 0 <= index <= |children|
      invariant Pending(pushed) == NodesOf(children[index..], depth) + Pending(stack)
    {
      index := index - 1;
      PushOne(pushed, children, index, depth, stack);
      pushed := pushed + [Node(children[index], depth)];
    }
    assert children[0..] == children;
  }

  lemma PendingTop(stack: seq<Node>, top: Node)
    ensures Pending(stack + [top]) == Nodes(top.condition, top.depth) + Pending(stack)
  {
    assert (stack + [top])[..|stack|] == stack;
  }

  lemma NodesOfFrom(cs: seq<Condition>, index: nat, depth: nat)
    requires index < |cs|
    ensures NodesOf(cs[index..], depth) == Nodes(cs[index], depth) + NodesOf(cs[index + 1..], depth)
  {
    assert cs[index..][1..] == cs[index + 1..];
  }

  lemma PushOne(pushed: seq<Node>, children: seq<Condition>, index: nat, depth: nat, stack: seq<Node>)
    requires index < |children| && Pending(pushed) == NodesOf(children[index + 1..], depth) + Pending(stack)
    ensures Pending(pushed + [Node(children[index], depth)]) == NodesOf(children[index..], depth) + Pending(stack)
  {
    PendingTop(pushed, Node(children[index], depth));
    NodesOfFrom(children, index, depth);
    Associative(Nodes(children[index], depth), NodesOf(children[index + 1..], depth), Pending(stack));
  }

  /** One round of the loop: either the fault of the next node, or the state without it. */
  method ProcessTop(stack: seq<Node>, limits: Limits, cardinality: nat, ghost remaining: seq<Node>)
    returns (rest: seq<Node>, used: nat, fault: Option<ValidationError>)
    requires stack != [] && cardinality <= limits.maxSetSize && remaining == Pending(stack)
    ensures remaining != []
    ensures fault.Some? ==> fault == FirstFault(remaining, limits, cardinality)
    ensures fault == None ==> Pending(rest) == remaining[1..] && used <= limits.maxSetSize
    ensures fault == None ==> FirstFault(remaining[1..], limits, used) == FirstFault(remaining, limits, cardinality)
  {
    var current := stack[|stack| - 1];
    rest, used, fault := stack[..|stack| - 1], cardinality, None;
    PopOne(stack, rest, current);
    FaultStep(remaining, limits, cardinality);
    if current.depth > limits.maxDepth {
      return rest, used, Some(DepthExceeded);
    }
    if !ValidNode(current.condition) {
      return rest, used, Some(InvalidCondition);
    }
    rest := PushChildren(rest, Children(current.condition), current.depth + 1);
    var local := LocalCardinality(current.condition);
    if local > limits.maxSetSize - cardinality {
      return rest, used, Some(TooManyLiterals);
    }
    used := cardinality + local;
  }

  /** validateConditionLimits: the loop meets the faults of the tree in pre-order. */
  method ValidateConditionLimits(condition: Condition, limits: Limits) returns (err: Option<ValidationError>)
    ensures err == FirstFault(Nodes(condition, 1), limits, 0)
  {
    var stack := [Node(condition, 1)];
    var cardinality: nat := 0;
    ghost var remaining := Pending(stack);
    PendingOne(Node(condition, 1));
    while stack != []
      invariant cardinality <= limits.maxSetSize
      invariant remaining == Pending(stack)
      invariant FirstFault(remaining, limits, cardinality) == FirstFault(Nodes(condition, 1), limits, 0)
      decreases |remaining|
    {
      stack, cardinality, err := ProcessTop(stack, limits, cardinality, remaining);
      if err.Some? {
        return;
      }
      remaining := remaining[1..];
    }
    return None;
  }

  lemma FaultStep(nodes: seq<Node>, limits: Limits, used: nat)
    requires nodes != []
    ensures FirstFault(nodes, limits, used) ==
            if Fault(nodes[0], limits, used).Some? then Fault(nodes[0], limits, used)
            else FirstFault(nodes[1..], limits, used + LocalCardinality(nodes[0].condition))
  {
  }

  lemma PendingOne(node: Node)
    ensures Pending([node]) == Nodes(node.condition, node.depth)
  {
    assert [node][..0] == [];
  }

  lemma PopOne(stack: seq<Node>, below: seq<Node>, current: Node)
    requires stack == below + [current]
    ensures Pending(stack) != [] && Pending(stack)[0] == current
    ensures Pending(stack)[1..] == NodesOf(Children(current.condition), current.depth + 1) + Pending(below)
  {
    var children := NodesOf(Children(current.condition), current.depth + 1);
    PendingTop(below, current);
    NodesThenChildren(current.condition, current.depth);
    Associative([current], children, Pending(below));
    HeadAndTail(current, children + Pending(below));
  }

  // ---- Acceptance, declaratively ----

  ghost predicate DepthsWithin(nodes: seq<Node>, limit: int) { forall n :: n in nodes ==> n.depth <= limit }

  ghost predicate AllValid(nodes: seq<Node>) { forall n :: n in nodes ==> ValidNode(n.condition) }

  lemma {:induction false} NoFaultMeans(nodes: seq<Node>, limits: Limits, used: nat)
    requires used <= limits.maxSetSize
    ensures FirstFault(nodes, limits, used) == None <==>
            DepthsWithin(nodes, limits.maxDepth) && AllValid(nodes) && used + Literals(nodes) <= limits.maxSetSize
  {
    if nodes != [] {
      assert nodes == [nodes[0]] + nodes[1..];
      if Fault(nodes[0], limits, used) == None {
        NoFaultMeans(nodes[1..], limits, used + LocalCardinality(nodes[0].condition));
      }
    }
  }

  lemma {:induction false} LiteralsAppend(a: seq<Node>, b: seq<Node>)
    ensures Literals(a + b) == Literals(a) + Literals(b)
  {
    if a == [] {
      assert a + b == b;
    } else {
      assert (a + b)[0] == a[0] && (a + b)[1..] == a[1..] + b;
      LiteralsAppend(a[1..], b);
    }
  }

  lemma AppendNodes(a: seq<Node>, b: seq<Node>, limit: int)
    ensures DepthsWithin(a + b, limit) <==> DepthsWithin(a, limit) && DepthsWithin(b, limit)
    ensures AllValid(a + b) <==> AllValid(a) && AllValid(b)
    ensures Literals(a + b) == Literals(a) + Literals(b)
  {
    LiteralsAppend(a, b);
    assert forall n :: n in a + b <==> n in a || n in b;
  }

  lemma RootAndBelow(c: Condition, depth: nat, below: seq<Node>, limit: int)
    ensures DepthsWithin([Node(c, depth)] + below, limit) <==> depth <= limit && DepthsWithin(below, limit)
    ensures AllValid([Node(c, depth)] + below) <==> ValidNode(c) && AllValid(below)
    ensures Literals([Node(c, depth)] + below) == LocalCardinality(c) + Literals(below)
  {
    AppendNodes([Node(c, depth)], below, limit);
    assert [Node(c, depth)][1..] == [];
  }

  ghost predicate Summarizes(nodes: seq<Node>, depth: int, valid: bool, literals: nat, limit: int) {
    (DepthsWithin(nodes, limit) <==> depth <= limit) && (AllValid(nodes) <==> valid) && Literals(nodes) == literals
  }

  lemma BranchSummary(c: Condition, cs: seq<Condition>, depth: nat, limit: int)
    requires c == All(cs) || c == Any(cs)
    requires cs != [] ==>
             Summarizes(NodesOf(cs, depth + 1), depth + Depths(cs), ValidTrees(cs), Cardinalities(cs), limit)
    ensures Summarizes(Nodes(c, depth), depth - 1 + Depth(c), ValidTree(c), Cardinality(c), limit)
  {
    RootAndBelow(c, depth, NodesOf(cs, depth + 1), limit);
    assert Nodes(c, depth) == [Node(c, depth)] + NodesOf(cs, depth + 1);
  }

  lemma NotSummary(child: Condition, depth: nat, limit: int)
    requires !child.Absent? ==>
      Summarizes(Nodes(child, depth + 1), depth + Depth(child), ValidTree(child), Cardinality(child), limit)
    ensures Summarizes(Nodes(Not(child), depth), depth - 1 + Depth(Not(child)),
                       ValidTree(Not(child)), Cardinality(Not(child)), limit)
  {
    var below := if child.Absent? then [] else Nodes(child, depth + 1);
    RootAndBelow(Not(child), depth, below, limit);
    assert Nodes(Not(child), depth) == [Node(Not(child), depth)] + below;
  }

  lemma LeafSummary(c: Condition, depth: nat, limit: int)
    requires IsLeaf(c) || c.Absent?
    ensures Summarizes(Nodes(c, depth), depth - 1 + Depth(c), ValidTree(c), Cardinality(c), limit)
  {
    RootAndBelow(c, depth, [], limit);
    assert Nodes(c, depth) == [Node(c, depth)] + [];
  }

  /** The pre-order list of a tree carries its depth, validity and cardinality. */
  lemma {:induction false} NodesSummary(c: Condition, depth: nat, limit: int)
    ensures Summarizes(Nodes(c, depth), depth - 1 + Depth(c), ValidTree(c), Cardinality(c), limit)
    decreases c, 1
  {
    match c
    case All(cs) =>
      NodesOfSummary(cs, depth + 1, limit);
      BranchSummary(c, cs, depth, limit);
    case Any(cs) =>
      NodesOfSummary(cs, depth + 1, limit);
      BranchSummary(c, cs, depth, limit);
    case Not(child) =>
      NodesSummary(child, depth + 1, limit);
      NotSummary(child, depth, limit);
    case _ => LeafSummary(c, depth, limit);
  }

  lemma {:induction false} NodesOfSummary(cs: seq<Condition>, depth: nat, limit: int)
    ensures cs != [] ==>
            Summarizes(NodesOf(cs, depth), depth - 1 + Depths(cs), ValidTrees(cs), Cardinalities(cs), limit)
    decreases cs, 0
  {
    if cs != [] {
      NodesSummary(cs[0], depth, limit);
      NodesOfSummary(cs[1..], depth, limit);
      AppendNodes(Nodes(cs[0], depth), NodesOf(cs[1..], depth), limit);
    }
  }

  lemma AcceptsExactly(c: Condition, limits: Limits)
    ensures FirstFault(Nodes(c, 1), limits, 0) == None <==>
            Depth(c) <= limits.maxDepth && ValidTree(c) && Cardinality(c) <= limits.maxSetSize
  {
    NoFaultMeans(Nodes(c, 1), limits, 0);
    NodesSummary(c, 1, limits.maxDepth);
  }

  // ---- EvaluateCondition ----

  datatype ConditionError = Rejected(validation: ValidationError) | Failed(evaluation: EvaluationError)

  datatype ConditionResult = ConditionResult(verdict: Verdict, cost: nat, error: Option<ConditionError>)

  /** EvaluateCondition: an admitted tree never panics, and costs exactly the nodes it visits when that fits. */
  method EvaluateCondition(condition: Condition, request: Request, limits: Limits) returns (r: ConditionResult)
    ensures condition.Absent? ==> r == ConditionResult(NO_VERDICT, 0, Some(Rejected(InvalidCondition)))
    ensures !condition.Absent? && FirstFault(Nodes(condition, 1), limits, 0).Some? ==>
            r == ConditionResult(NO_VERDICT, 0, Some(Rejected(FirstFault(Nodes(condition, 1), limits, 0).value)))
    ensures r.error.Some? && r.error.value.Failed? ==> r.error.value.evaluation != Panic
    ensures !condition.Absent? && FirstFault(Nodes(condition, 1), limits, 0) == None ==>
            var meaning := MeaningOf(condition, request, limits.maxSetSize);
            var visits := Visits(condition, request, limits.maxSetSize);
            if visits > limits.maxCost then
              r == ConditionResult(NO_VERDICT, limits.maxCost, Some(Failed(CostExceeded)))
            else if meaning == Oversize then
              r == ConditionResult(NO_VERDICT, visits, Some(Failed(SetLimitExceeded)))
            else
              meaning.Done? && r == ConditionResult(Verdict(meaning == Done(StatusMatch), meaning.status), visits, None)
  {
    if condition.Absent? {
      return ConditionResult(NO_VERDICT, 0, Some(Rejected(InvalidCondition)));
    }
    var err := ValidateConditionLimits(condition, limits);
    if err.Some? {
      return ConditionResult(NO_VERDICT, 0, Some(Rejected(err.value)));
    }
    AcceptsExactly(condition, limits);
    ValidNeverStuck(condition, request, limits.maxSetSize);
    var state := new EvaluationState(request, limits.maxCost, limits.maxSetSize);
    var answer := state.Evaluate(condition);
    return ConditionResult(
        answer.verdict, state.cost, if answer.error.Some? then Some(Failed(answer.error.value)) else None);
  }
}
