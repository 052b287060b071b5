/** com.highbar.tools.mri.report.MRIReportWriter: turns what the profiler
    recorded into the report's records. Net ("adjusted") times are written
    into the call-tree nodes first; then every thread's tree becomes a stack
    trace, the nodes listed by identity become method summaries sorted by
    total net time, and the trigger counters become trigger rows.

    Elapsed times are read from each node's stopwatch at one instant `now`.
    Method arguments are held by their string forms. */
module ReportWriter {
  import opened Wrappers
  import JavaStrings
  import Strings
  import StopWatch
  import opened ExecutionNodes
  import opened Trees
  import TP = TriggerParameters
  import TreeMaps

  // ---------------------------------------------------------------------
  // Records of the report

  datatype Parameter = Parameter(typeName: string, value: string)

  /** One `XExecutionNode`: a call in a thread's stack trace. */
  datatype NodeRow = NodeRow(
    order: nat,
    depth: nat,
    nodeType: NodeType,
    name: Option<string>,
    methodName: Option<string>,
    totalTime: int,
    adjustedTime: int,
    parameters: seq<Parameter>)

  /** One `XStackTrace`: a thread's calls in preorder. */
  datatype StackTrace = StackTrace(threadId: string, totalTime: int, rows: seq<NodeRow>)

  /** One `XMethodSummary`. */
  datatype MethodSummary = MethodSummary(
    nodeType: NodeType,
    name: Option<string>,
    methodName: Option<string>,
    invocations: nat,
    averageTime: int,
    totalTime: int)

  /** One `XTrigger`. */
  datatype TriggerRow = TriggerRow(
    name: string,
    revision: string,
    program: string,
    methodName: string,
    sequence: string,
    invocations: nat)

  /** One `XMissingTrigger`. */
  datatype MissingTriggerRow = MissingTriggerRow(name: string, attempts: nat)

  // ---------------------------------------------------------------------
  // Reading the arena

  type Arena = seq<TreeNode<ExecutionNode>>

  /** The execution nodes held by the tree nodes. */
  ghost function Objects(nodes: Arena): set<ExecutionNode>
  {
    set i | 0 <= i < |nodes| :: nodes[i].obj
  }

  /** Their stopwatches. */
  ghost function Watches(nodes: Arena): set<StopWatch.DefaultStopWatch>
  {
    set i | 0 <= i < |nodes| :: nodes[i].obj.stopWatch
  }

  ghost predicate WatchesValid(nodes: Arena)
    reads Watches(nodes)
  {
    forall i :: 0 <= i < |nodes| ==> nodes[i].obj.stopWatch.Valid()
  }

  /** Every tree node holds an execution node of its own, as the aspect
      creates one per advised call. */
  ghost predicate OwnObjects(nodes: Arena)
  {
    forall i, j :: 0 <= i < j < |nodes| ==> nodes[i].obj != nodes[j].obj
  }

  /** `getStopWatch().getElapsedTime()` of node `x` at time `now`. */
  ghost function Elapsed(nodes: Arena, x: nat, now: int): int
    reads Watches(nodes)
  {
    if x < |nodes| then StopWatch.ElapsedAt(StopWatch.Run(nodes[x].obj.stopWatch.history), now) else 0
  }

  /** The elapsed times of the nodes `s`, added up. */
  ghost function SumElapsed(nodes: Arena, s: seq<nat>, now: int): int
    reads Watches(nodes)
  {
    if s == [] then 0 else SumElapsed(nodes, s[..|s| - 1], now) + Elapsed(nodes, s[|s| - 1], now)
  }

  /** What `setAdjustedTime` gives node `x`: its elapsed time less its
      direct children's. */
  ghost function NetTime(nodes: Arena, x: nat, now: int): int
    reads Watches(nodes)
  {
    if x < |nodes| then Elapsed(nodes, x, now) - SumElapsed(nodes, nodes[x].children, now) else 0
  }

  /** The net times of the nodes `s`, added up. */
  ghost function SumNetTime(nodes: Arena, s: seq<nat>, now: int): int
    reads Watches(nodes)
  {
    if s == [] then 0 else SumNetTime(nodes, s[..|s| - 1], now) + NetTime(nodes, s[|s| - 1], now)
  }

  /** Node `y` holds its net time. */
  ghost predicate Adjusted(nodes: Arena, y: nat, now: int)
    reads Objects(nodes), Watches(nodes)
  {
    y < |nodes| && nodes[y].obj.netTime == NetTime(nodes, y, now)
  }

  lemma {:induction false} SumElapsedAppend(nodes: Arena, a: seq<nat>, b: seq<nat>, now: int)
    ensures SumElapsed(nodes, a + b, now) == SumElapsed(nodes, a, now) + SumElapsed(nodes, b, now)
  {
    if b == [] {
      assert a + b == a;
    } else {
      var ab, front := a + b, b[..|b| - 1];
      assert ab[..|ab| - 1] == a + front && ab[|ab| - 1] == b[|b| - 1];
      SumElapsedAppend(nodes, a, front, now);
    }
  }

  lemma {:induction false} SumNetTimeAppend(nodes: Arena, a: seq<nat>, b: seq<nat>, now: int)
    ensures SumNetTime(nodes, a + b, now) == SumNetTime(nodes, a, now) + SumNetTime(nodes, b, now)
  {
    if b == [] {
      assert a + b == a;
    } else {
      var ab, front := a + b, b[..|b| - 1];
      assert ab[..|ab| - 1] == a + front && ab[|ab| - 1] == b[|b| - 1];
      SumNetTimeAppend(nodes, a, front, now);
    }
  }

  /** What net times mean: over a whole subtree they add up to the elapsed
      time of the subtree's root, each call's time being counted once, in
      the innermost call that was running. */
  lemma {:induction false} NetTimesAddUp(nodes: Arena, x: nat, now: int)
    requires WellFormed(nodes) && x < |nodes|
    ensures SumNetTime(nodes, Preorder(nodes, x), now) == Elapsed(nodes, x, now)
    decreases |nodes| - x, 1
  {
    ChildrenAreSiblings(nodes, x);
    var cs := nodes[x].children;
    NetTimesAddUpForest(nodes, cs, now);
    SumNetTimeAppend(nodes, [x], PreorderForest(nodes, cs), now);
    assert SumNetTime(nodes, [x], now) == NetTime(nodes, x, now) by {
      assert [x][..0] == [];
    }
  }

  /** Over the subtrees of a list of siblings, net times add up to the
      siblings' elapsed times. */
  lemma {:induction false} NetTimesAddUpForest(nodes: Arena, cs: seq<nat>, now: int)
    requires WellFormed(nodes) && Siblings(nodes, cs)
    ensures SumNetTime(nodes, PreorderForest(nodes, cs), now) == SumElapsed(nodes, cs, now)
    decreases if cs == [] then 0 else |nodes| - cs[0], 2
  {
    if cs != [] {
      NetTimesAddUp(nodes, cs[0], now);
      SiblingsTail(nodes, cs);
      NetTimesAddUpForest(nodes, cs[1..], now);
      SumNetTimeAppend(nodes, Preorder(nodes, cs[0]), PreorderForest(nodes, cs[1..]), now);
      SumElapsedAppend(nodes, [cs[0]], cs[1..], now);
      assert [cs[0]] + cs[1..] == cs;
      assert SumElapsed(nodes, [cs[0]], now) == Elapsed(nodes, cs[0], now) by {
        assert [cs[0]][..0] == [];
      }
    }
  }

  // ---------------------------------------------------------------------
  // Net times

  /** The nodes of the trees under `roots`. */
  ghost function TreeNodes(nodes: Arena, roots: set<nat>): set<nat>
    requires WellFormed(nodes) && forall r :: r in roots ==> r < |nodes|
  {
    set r, y | r in roots && y in Preorder(nodes, r) :: y
  }

  /** `setAdjustedTime`: the node's elapsed time, less each child's elapsed
      time in turn, becomes its net time. */
  method SetAdjustedTime(forest: Forest<ExecutionNode>, x: nat, now: int)
    requires forest.Valid() && x < |forest.nodes| && WatchesValid(forest.nodes)
    modifies forest.nodes[x].obj`netTime
    ensures Adjusted(forest.nodes, x, now)
    ensures forall i :: 0 <= i < |forest.nodes| ==> forest.nodes[i].obj.methodName == old(forest.nodes[i].obj.methodName) && forest.nodes[i].obj.parameters == old(forest.nodes[i].obj.parameters)
    ensures forest.nodes[x].obj.netTime + SumElapsed(forest.nodes, forest.nodes[x].children, now) == Elapsed(forest.nodes, x, now)
  {
    var node := forest.GetObject(x);
    var t := node.stopWatch.GetElapsedTime(now);
    var children := forest.GetChildren(x);
    t := SubtractChildren(forest, children, t, now);
    node.SetNetTime(t);
    assert unchanged(Watches(forest.nodes));
  }

  /** The loop of `setAdjustedTime`: each child's elapsed time taken off
      `t` in turn. */
  method SubtractChildren(forest: Forest<ExecutionNode>, children: seq<nat>, t: int, now: int) returns (r: int)
    requires WatchesValid(forest.nodes) && forall i :: 0 <= i < |children| ==> children[i] < |forest.nodes|
    ensures r == t - SumElapsed(forest.nodes, children, now)
  {
    r := t;
    for i := 0 to |children|
      invariant r == t - SumElapsed(forest.nodes, children[..i], now)
    {
      var child := forest.GetObject(children[i]);
      var e := child.stopWatch.GetElapsedTime(now);
      r := r - e;
      assert children[..i + 1][..i] == children[..i];
    }
    assert children[..|children|] == children;
  }


  /** `setAdjustedTime` on one more node, keeping the nodes adjusted
      before. */
  method AdjustOne(forest: Forest<ExecutionNode>, y: nat, now: int, ghost fixed: set<nat>) returns (ghost grown: set<nat>)
    requires forest.Valid() && WatchesValid(forest.nodes) && OwnObjects(forest.nodes) && y < |forest.nodes|
    requires forall z :: z in fixed ==> Adjusted(forest.nodes, z, now)
    modifies forest.nodes[y].obj`netTime
    ensures unchanged(Watches(forest.nodes))
    ensures forall i :: 0 <= i < |forest.nodes| ==> forest.nodes[i].obj.methodName == old(forest.nodes[i].obj.methodName) && forest.nodes[i].obj.parameters == old(forest.nodes[i].obj.parameters)
    ensures forall i :: 0 <= i < |forest.nodes| && i != y ==> forest.nodes[i].obj.netTime == old(forest.nodes[i].obj.netTime)
    ensures grown == fixed + {y}
    ensures forall z :: z in grown ==> Adjusted(forest.nodes, z, now)
  {
    SetAdjustedTime(forest, y, now);
    assert unchanged(Watches(forest.nodes));
    forall i | 0 <= i < |forest.nodes| && i != y
      ensures forest.nodes[i].obj.netTime == old(forest.nodes[i].obj.netTime)
    {
      assert forest.nodes[i].obj != forest.nodes[y].obj;
    }
    forall z | z in fixed && z != y ensures Adjusted(forest.nodes, z, now) {
      assert old(Adjusted(forest.nodes, z, now));
      assert old(NetTime(forest.nodes, z, now)) == NetTime(forest.nodes, z, now);
    }
    grown := fixed + {y};
  }

  /** The loop over one thread's tree: each node the preorder iterator
      yields gets its net time. */
  method SetAdjustedTree(forest: Forest<ExecutionNode>, root: nat, now: int, ghost fixed: set<nat>) returns (ghost grown: set<nat>)
    requires forest.Valid() && WatchesValid(forest.nodes) && OwnObjects(forest.nodes) && root < |forest.nodes|
    requires forall z :: z in fixed ==> Adjusted(forest.nodes, z, now)
    modifies Objects(forest.nodes)`netTime
    ensures unchanged(Watches(forest.nodes))
    ensures forall i :: 0 <= i < |forest.nodes| ==> forest.nodes[i].obj.methodName == old(forest.nodes[i].obj.methodName) && forest.nodes[i].obj.parameters == old(forest.nodes[i].obj.parameters)
    ensures forall i :: 0 <= i < |forest.nodes| && i !in Preorder(forest.nodes, root) ==> forest.nodes[i].obj.netTime == old(forest.nodes[i].obj.netTime)
    ensures fixed <= grown && forall y :: y in Preorder(forest.nodes, root) ==> y in grown
    ensures forall z :: z in grown ==> Adjusted(forest.nodes, z, now)
  {
    ghost var nodes, tree := forest.nodes, Preorder(forest.nodes, root);
    var it := Iterator(forest.nodes, root);
    grown := fixed;
    while it.HasNext()
      invariant it.Valid() && it.nodes == nodes && it.root == root && fresh(it)
      invariant forest.nodes == nodes
      invariant fixed <= grown && forall y :: y in it.produced ==> y in grown
      invariant forall z :: z in grown ==> Adjusted(nodes, z, now)
      invariant unchanged(Watches(nodes))
      invariant forall i :: 0 <= i < |nodes| && i !in it.produced ==> nodes[i].obj.netTime == old(nodes[i].obj.netTime)
      decreases |tree| - |it.produced|
    {
      var y;
      y, grown := AdjustNext(forest, it, now, grown);
    }
    assert it.produced == tree;
  }

  /** Adding a root adds the nodes of its tree. */
  lemma TreeNodesGrow(nodes: Arena, done: set<nat>, root: nat)
    requires WellFormed(nodes) && root < |nodes| && forall r :: r in done ==> r < |nodes|
    ensures TreeNodes(nodes, done + {root}) == TreeNodes(nodes, done) + set y | y in Preorder(nodes, root)
  {
  }

  /** One turn of `setAdjustedTimes`' inner loop: the next node in
      preorder gets its net time. */
  method AdjustNext(forest: Forest<ExecutionNode>, it: PreorderIterator<ExecutionNode>, now: int, ghost fixed: set<nat>)
    returns (y: nat, ghost grown: set<nat>)
    requires forest.Valid() && WatchesValid(forest.nodes) && OwnObjects(forest.nodes)
    requires it.Valid() && it.nodes == forest.nodes && it.HasNext()
    requires (forall y :: y in it.produced ==> y in fixed) && forall z :: z in fixed ==> Adjusted(forest.nodes, z, now)
    modifies it, Objects(forest.nodes)`netTime
    ensures it.Valid() && it.produced == old(it.produced) + [y]
    ensures unchanged(Watches(forest.nodes))
    ensures forall i :: 0 <= i < |forest.nodes| ==> forest.nodes[i].obj.methodName == old(forest.nodes[i].obj.methodName) && forest.nodes[i].obj.parameters == old(forest.nodes[i].obj.parameters)
    ensures forall i :: 0 <= i < |forest.nodes| && i != y ==> forest.nodes[i].obj.netTime == old(forest.nodes[i].obj.netTime)
    ensures fixed <= grown && forall y :: y in it.produced ==> y in grown
    ensures forall z :: z in grown ==> Adjusted(forest.nodes, z, now)
  {
    y := NextNode(forest, it);
    grown := AdjustOne(forest, y, now, fixed);
  }

  /** One step of a preorder iterator over the forest's nodes, which
      changes no node and no stopwatch. */
  method NextNode(forest: Forest<ExecutionNode>, it: PreorderIterator<ExecutionNode>) returns (y: nat)
    requires forest.Valid() && it.Valid() && it.nodes == forest.nodes && it.HasNext()
    modifies it
    ensures it.Valid() && y < |forest.nodes|
    ensures it.produced == old(it.produced) + [y] && y == Preorder(it.nodes, it.root)[|old(it.produced)|]
    ensures unchanged(Objects(forest.nodes)) && unchanged(Watches(forest.nodes))
  {
    var next := it.Next();
    y := next.value;
    assert y in Preorder(it.nodes, it.root);
    PreorderInArena(it.nodes, it.root);
  }

  /** `setAdjustedTimes`: every node of every thread's tree, visited in
      preorder from its root, gets its net time. */
  method SetAdjustedTimes(forest: Forest<ExecutionNode>, roots: set<nat>, now: int)
    requires forest.Valid() && WatchesValid(forest.nodes) && OwnObjects(forest.nodes)
    requires forall r :: r in roots ==> r < |forest.nodes|
    modifies Objects(forest.nodes)`netTime
    ensures unchanged(Watches(forest.nodes))
    ensures forall i :: 0 <= i < |forest.nodes| ==> forest.nodes[i].obj.methodName == old(forest.nodes[i].obj.methodName) && forest.nodes[i].obj.parameters == old(forest.nodes[i].obj.parameters)
    ensures forall i :: 0 <= i < |forest.nodes| && i !in TreeNodes(forest.nodes, roots) ==> forest.nodes[i].obj.netTime == old(forest.nodes[i].obj.netTime)
    ensures forall r, y :: r in roots && y in Preorder(forest.nodes, r) ==> Adjusted(forest.nodes, y, now)
  {
    var rest := roots;
    ghost var done: set<nat> := {};
    ghost var fixed: set<nat> := {};
    while rest != {}
      invariant done + rest == roots
      invariant forall r, y :: r in done && y in Preorder(forest.nodes, r) ==> y in fixed
      invariant forall z :: z in fixed ==> Adjusted(forest.nodes, z, now)
      invariant unchanged(Watches(forest.nodes))
      invariant forall i :: 0 <= i < |forest.nodes| && i !in TreeNodes(forest.nodes, done) ==> forest.nodes[i].obj.netTime == old(forest.nodes[i].obj.netTime)
      decreases |rest|
    {
      var root :| root in rest;
      fixed := SetAdjustedTree(forest, root, now, fixed);
      TreeNodesGrow(forest.nodes, done, root);
      done := done + {root};
      rest := rest - {root};
    }
  }

  /** `getTotalTimeForThread`: the elapsed times of the root's direct
      children, added up. */
  method GetTotalTimeForThread(forest: Forest<ExecutionNode>, root: nat, now: int) returns (t: int)
    requires forest.Valid() && root < |forest.nodes| && WatchesValid(forest.nodes)
    ensures t == SumElapsed(forest.nodes, forest.nodes[root].children, now)
  {
    t := 0;
    var children := forest.GetChildren(root);
    for i := 0 to |children|
      invariant t == SumElapsed(forest.nodes, children[..i], now)
    {
      var child := forest.GetObject(children[i]);
      t := t + child.stopWatch.GetElapsedTime(now);
      assert children[..i + 1][..i] == children[..i];
    }
    assert children[..|children|] == children;
  }

  /** The thread total is what the net times of the thread's calls add up
      to: every call below the root, each once. */
  lemma ThreadTotalIsNetTimes(nodes: Arena, root: nat, now: int)
    requires WellFormed(nodes) && root < |nodes| && nodes[root].parent.None?
    ensures SumNetTime(nodes, NonRoots(nodes, Preorder(nodes, root)), now) == SumElapsed(nodes, nodes[root].children, now)
  {
    NonRootsOfTree(nodes, root);
    ChildrenAreSiblings(nodes, root);
    NetTimesAddUpForest(nodes, nodes[root].children, now);
  }

  // ---------------------------------------------------------------------
  // Stack traces

  /** The nodes of `s` that have a parent, in order: the ones the stack
      trace lists. */
  ghost function NonRoots(nodes: Arena, s: seq<nat>): seq<nat>
  {
    if s == [] then []
    else NonRoots(nodes, s[..|s| - 1]) + (if s[|s| - 1] < |nodes| && nodes[s[|s| - 1]].parent.Some? then [s[|s| - 1]] else [])
  }

  /** Visiting one more node adds it to the non-roots unless it is a root. */
  lemma NonRootsStep(nodes: Arena, s: seq<nat>, x: nat)
    requires x < |nodes|
    ensures NonRoots(nodes, s + [x]) == NonRoots(nodes, s) + (if nodes[x].parent.Some? then [x] else [])
  {
    assert (s + [x])[..|s|] == s;
  }

  lemma {:induction false} NonRootsAll(nodes: Arena, s: seq<nat>)
    requires forall k :: 0 <= k < |s| ==> s[k] < |nodes| && nodes[s[k]].parent.Some?
    ensures NonRoots(nodes, s) == s
  {
    if s != [] {
      var front := s[..|s| - 1];
      assert forall k :: 0 <= k < |front| ==> front[k] == s[k];
      NonRootsAll(nodes, front);
      assert s == front + [s[|s| - 1]];
    }
  }

  /** Below a root, the stack trace lists exactly the root's descendants in
      preorder. */
  lemma NonRootsOfTree(nodes: Arena, root: nat)
    requires WellFormed(nodes) && root < |nodes| && nodes[root].parent.None?
    ensures NonRoots(nodes, Preorder(nodes, root)) == PreorderForest(nodes, nodes[root].children)
  {
    var p := Preorder(nodes, root);
    var below := PreorderForest(nodes, nodes[root].children);
    assert p == [root] + below;
    assert NonRoots(nodes, below) == below by {
      ChildrenAreSiblings(nodes, root);
      PreorderBelowRootHasParents(nodes, root);
      assert forall k :: 0 <= k < |below| ==> below[k] in p[1..];
      NonRootsAll(nodes, below);
    }
    NonRootsAppend(nodes, [root], below);
    assert NonRoots(nodes, [root]) == [] by {
      assert [root][..0] == [];
    }
  }

  lemma {:induction false} NonRootsAppend(nodes: Arena, a: seq<nat>, b: seq<nat>)
    ensures NonRoots(nodes, a + b) == NonRoots(nodes, a) + NonRoots(nodes, b)
  {
    if b == [] {
      assert a + b == a;
    } else {
      var ab, front := a + b, b[..|b| - 1];
      assert ab[..|ab| - 1] == a + front && ab[|ab| - 1] == b[|b| - 1];
      NonRootsAppend(nodes, a, front);
    }
  }

  const UNABLE := "[Unable to Retrieve]"

  /** `isValidXML`: anything but the bell character. */
  predicate IsValidXML(c: char)
  {
    c != 7 as char
  }

  /** The text with every character XML cannot hold replaced by a space. */
  function Scrubbed(s: string): (r: string)
    ensures |r| == |s|
    ensures forall i :: 0 <= i < |s| ==> IsValidXML(r[i]) && (IsValidXML(s[i]) ==> r[i] == s[i])
  {
    if s == [] then []
    else Scrubbed(s[..|s| - 1]) + [if IsValidXML(s[|s| - 1]) then s[|s| - 1] else ' ']
  }

  /** `toXMLFriendly`: rewrite the characters in place, in an array. */
  method ToXMLFriendly(s: string) returns (r: string)
    ensures r == Scrubbed(s)
  {
    var chars := new char[|s|](i requires 0 <= i < |s| => s[i]);
    for i := 0 to chars.Length
      invariant chars[..i] == Scrubbed(s[..i]) && chars[i..] == s[i..]
    {
      if !IsValidXML(chars[i]) {
        chars[i] := ' ';
      }
      assert s[..i + 1][..i] == s[..i];
      assert chars[..i + 1] == chars[..i] + [chars[i]];
    }
    assert s[..|s|] == s;
    r := chars[..];
  }

  /** `getParameterTypes`: the text between the first '(' and the last ')'
      split at ", "; null when either is missing. A null signature throws a
      NullPointerException, and a last ')' before the first '(' makes the
      substring throw. */
  function GetParameterTypes(signature: Option<string>): (r: Result<Option<seq<string>>>)
    ensures r == Err(NullPointer) <==> signature.None?
    ensures signature.Some? ==>
      (r == Ok(None) <==> ')' !in signature.value || '(' !in signature.value)
    ensures r == Err(IndexOutOfBounds) <==>
      signature.Some? && JavaStrings.LastIndexOfChar(signature.value, ')') != -1
      && JavaStrings.LastIndexOfChar(signature.value, ')') < JavaStrings.IndexOfChar(signature.value, '(')
    ensures r.Ok? && r.value.Some? ==> forall p :: p in r.value.value ==> JavaStrings.IndexOf(p, ", ") == -1
  {
    if signature.None? then Err(NullPointer)
    else
      var s := signature.value;
      var start := JavaStrings.IndexOfChar(s, '(');
      var end := JavaStrings.LastIndexOfChar(s, ')');
      if start != -1 && end != -1 then
        if start + 1 <= end then Ok(Some(JavaStrings.SplitLiteral(s[start + 1..end], ", ")))
        else Err(IndexOutOfBounds)
      else Ok(None)
  }

  /** The types joined back with ", " give the text between the brackets,
      unless that text ends with the separator. */
  lemma ParameterTypesRejoin(s: string)
    requires GetParameterTypes(Some(s)).Ok? && GetParameterTypes(Some(s)).value.Some?
    requires !JavaStrings.EndsWith(s[JavaStrings.IndexOfChar(s, '(') + 1..JavaStrings.LastIndexOfChar(s, ')')], ", ")
    ensures Strings.Join(GetParameterTypes(Some(s)).value.value, ", ") ==
      s[JavaStrings.IndexOfChar(s, '(') + 1..JavaStrings.LastIndexOfChar(s, ')')]
  {
    JavaStrings.SplitLiteralJoin(s[JavaStrings.IndexOfChar(s, '(') + 1..JavaStrings.LastIndexOfChar(s, ')')], ", ");
  }

  /** The parameter records of one call: none without arguments; one per
      argument, typed from the signature and with its text made XML-safe,
      when the signature lists as many types as there are arguments; a
      single "[Unable to Retrieve]" record otherwise. */
  function ParametersOf(signature: Option<string>, args: Option<seq<string>>): (r: Result<seq<Parameter>>)
    ensures args.None? || args.value == [] ==> r == Ok([])
    ensures r.Err? <==> args.Some? && args.value != [] && GetParameterTypes(signature).Err?
    ensures r.Ok? && args.Some? && args.value != [] ==> |r.value| >= 1
  {
    if args.None? || args.value == [] then Ok([])
    else
      match GetParameterTypes(signature)
      case Err(e) => Err(e)
      case Ok(types) =>
        if types.Some? && |types.value| == |args.value| then
          Ok(seq(|args.value|, i requires 0 <= i < |args.value| => Parameter(types.value[i], Scrubbed(args.value[i]))))
        else Ok([Parameter(UNABLE, UNABLE)])
  }

  /** The loop of `getStackTrace` that fills in one call's parameters. */
  method MethodParameters(signature: Option<string>, args: Option<seq<string>>) returns (r: Result<seq<Parameter>>)
    ensures r == ParametersOf(signature, args)
  {
    if args.None? || |args.value| == 0 {
      return Ok([]);
    }
    var parameterTypes := GetParameterTypes(signature);
    if parameterTypes.Err? {
      return Err(parameterTypes.error);
    }
    var values := args.value;
    if parameterTypes.value.Some? && |parameterTypes.value.value| == |values| {
      var types := parameterTypes.value.value;
      var ps: seq<Parameter> := [];
      for i := 0 to |types|
        invariant |ps| == i
        invariant forall k :: 0 <= k < i ==> ps[k] == Parameter(types[k], Scrubbed(values[k]))
      {
        var value := ToXMLFriendly(values[i]);
        ps := ps + [Parameter(types[i], value)];
      }
      assert ps == seq(|values|, i requires 0 <= i < |values| => Parameter(types[i], Scrubbed(values[i])));
      r := Ok(ps);
    } else {
      r := Ok([Parameter(UNABLE, UNABLE)]);
    }
  }

  /** The record `getStackTrace` writes for node `y` at position `order`:
      its depth is its level, so the root's children have depth 1; its
      total time is what its stopwatch reads and its adjusted time the net
      time it holds. It fails when the parameters cannot be written. */
  ghost function RowAt(nodes: Arena, y: nat, order: nat, now: int): Result<NodeRow>
    requires WellFormed(nodes) && y < |nodes|
    reads Objects(nodes), Watches(nodes)
  {
    var n := nodes[y].obj;
    var ps := ParametersOf(n.methodName, n.parameters);
    if ps.Err? then Err(ps.error)
    else Ok(NodeRow(order, Level(nodes, y), n.nodeType, n.name, n.methodName,
      Elapsed(nodes, y, now), n.netTime, ps.value))
  }

  ghost predicate RowOf(nodes: Arena, row: NodeRow, y: nat, order: nat, now: int)
    reads Objects(nodes), Watches(nodes)
  {
    WellFormed(nodes) && y < |nodes| && RowAt(nodes, y, order, now) == Ok(row)
  }

  /** `rows` are the records of the nodes `ys`, numbered from 0. */
  ghost predicate RowsOf(nodes: Arena, rows: seq<NodeRow>, ys: seq<nat>, now: int)
    reads Objects(nodes), Watches(nodes)
  {
    |rows| == |ys| && forall i :: 0 <= i < |rows| ==> RowOf(nodes, rows[i], ys[i], i, now)
  }

  /** The records of the nodes from `i` on, each at position 0. */
  ghost function TableFrom(nodes: Arena, i: nat, now: int): (t: seq<Result<NodeRow>>)
    requires WellFormed(nodes) && i <= |nodes|
    reads Objects(nodes), Watches(nodes)
    ensures |t| == |nodes| - i
    decreases |nodes| - i
  {
    if i == |nodes| then [] else [RowAt(nodes, i, 0, now)] + TableFrom(nodes, i + 1, now)
  }

  /** The table holds the record of every node from `i` on. */
  lemma {:induction false} TableFromEntry(nodes: Arena, i: nat, k: nat, now: int)
    requires WellFormed(nodes) && i + k < |nodes|
    ensures TableFrom(nodes, i, now)[k] == RowAt(nodes, i + k, 0, now)
    decreases k
  {
    if k > 0 {
      TableFromEntry(nodes, i + 1, k - 1, now);
    }
  }

  /** `rows` are the records of `ys` in a table of every node's record. */
  ghost predicate RowsIn(table: seq<Result<NodeRow>>, rows: seq<NodeRow>, ys: seq<nat>)
  {
    |rows| == |ys| && forall i :: 0 <= i < |rows| ==>
      ys[i] < |table| && table[ys[i]].Ok? && rows[i] == table[ys[i]].value.(order := i)
  }

  /** One more record found in the table extends the records of a list of
      nodes by its node. */
  lemma RowsInStep(table: seq<Result<NodeRow>>, rows: seq<NodeRow>, ys: seq<nat>, row: NodeRow, y: nat)
    requires RowsIn(table, rows, ys)
    requires y < |table| && table[y].Ok? && row == table[y].value.(order := |rows|)
    ensures RowsIn(table, rows + [row], ys + [y])
  {
    forall i | 0 <= i < |rows| + 1
      ensures (ys + [y])[i] < |table| && table[(ys + [y])[i]].Ok?
        && (rows + [row])[i] == table[(ys + [y])[i]].value.(order := i)
    {
      if i < |rows| {
        assert (rows + [row])[i] == rows[i] && (ys + [y])[i] == ys[i];
      }
    }
  }

  /** Records found in the table of the arena's records are its records. */
  lemma RowsInTable(nodes: Arena, rows: seq<NodeRow>, ys: seq<nat>, now: int)
    requires WellFormed(nodes) && RowsIn(TableFrom(nodes, 0, now), rows, ys)
    ensures RowsOf(nodes, rows, ys, now)
  {
    var table := TableFrom(nodes, 0, now);
    forall i | 0 <= i < |rows|
      ensures RowOf(nodes, rows[i], ys[i], i, now)
    {
      TableFromEntry(nodes, 0, ys[i], now);
    }
  }

  /** The parameters of node `y` cannot be written. */
  ghost predicate ParametersFail(nodes: Arena, y: nat)
    reads Objects(nodes)
  {
    y < |nodes| && ParametersOf(nodes[y].obj.methodName, nodes[y].obj.parameters).Err?
  }

  /** The record of one node below a root: type, name, method, depth, the
      stopwatch's reading, the net time and the parameter rows. */
  method WriteRow(forest: Forest<ExecutionNode>, x: nat, order: nat, now: int, ghost table: seq<Result<NodeRow>>)
      returns (r: Result<NodeRow>)
    requires forest.Valid() && x < |forest.nodes| && WatchesValid(forest.nodes)
    requires table == TableFrom(forest.nodes, 0, now)
    ensures r.Err? <==> table[x].Err?
    ensures r.Ok? ==> r.value == table[x].value.(order := order)
    ensures WatchesValid(forest.nodes) && TableFrom(forest.nodes, 0, now) == table
  {
    var node := forest.GetObject(x);
    var totalTime, adjustedTime := node.stopWatch.GetElapsedTime(now), node.netTime;
    var methodName, args := node.methodName, node.parameters;
    TableFromEntry(forest.nodes, 0, x, now);
    var depth := forest.GetLevel(x);
    var parameters := MethodParameters(methodName, args);
    assert unchanged(Objects(forest.nodes)) && unchanged(Watches(forest.nodes));
    if parameters.Err? {
      return Err(parameters.error);
    }
    r := Ok(NodeRow(order, depth, node.nodeType, node.name, methodName, totalTime, adjustedTime, parameters.value));
  }

  /** The forest holds `nodes`, whose stopwatches are valid and whose
      records are `table`. */
  ghost predicate Snapshot(forest: Forest<ExecutionNode>, nodes: Arena, now: int, table: seq<Result<NodeRow>>)
    reads forest, Objects(nodes), Watches(nodes)
  {
    forest.nodes == nodes && WellFormed(nodes) && WatchesValid(nodes) && table == TableFrom(nodes, 0, now)
  }

  /** One step of the loop of `getStackTrace`: the iterator's next node,
      and its record unless it is the root. Neither the iterator nor the
      record changes a node or a stopwatch. */
  method NextRow(forest: Forest<ExecutionNode>, it: PreorderIterator<ExecutionNode>, order: nat, now: int,
      ghost nodes: Arena, ghost table: seq<Result<NodeRow>>) returns (x: nat, row: Option<Result<NodeRow>>)
    requires Snapshot(forest, nodes, now, table) && it.Valid() && it.nodes == nodes && it.HasNext()
    modifies it
    ensures it.Valid() && x < |nodes|
    ensures it.produced == old(it.produced) + [x] && x == Preorder(it.nodes, it.root)[|old(it.produced)|]
    ensures row.None? <==> nodes[x].parent.None?
    ensures row.Some? ==> (row.value.Err? <==> table[x].Err?)
    ensures row.Some? && row.value.Ok? ==> row.value.value == table[x].value.(order := order)
    ensures Snapshot(forest, nodes, now, table)
  {
    x := NextNode(forest, it);
    if forest.IsRoot(x) {
      return x, None;
    }
    var r := WriteRow(forest, x, order, now, table);
    row := Some(r);
  }

  /** The loop of `getStackTrace`: one record per node of the tree in
      preorder, skipping the root, numbered from 0. */
  method TreeRows(forest: Forest<ExecutionNode>, root: nat, now: int, ghost table: seq<Result<NodeRow>>)
      returns (r: Result<seq<NodeRow>>)
    requires forest.Valid() && root < |forest.nodes| && WatchesValid(forest.nodes)
    requires table == TableFrom(forest.nodes, 0, now)
    ensures r.Ok? ==> RowsIn(table, r.value, NonRoots(forest.nodes, Preorder(forest.nodes, root)))
    ensures r.Err? ==> exists y :: y in Preorder(forest.nodes, root) && y < |table| && table[y].Err?
  {
    ghost var nodes, tree := forest.nodes, Preorder(forest.nodes, root);
    var rows: seq<NodeRow> := [];
    var order := 0;
    var it := Iterator(forest.nodes, root);
    assert unchanged(Objects(nodes)) && unchanged(Watches(nodes));
    while it.HasNext()
      invariant it.Valid() && it.nodes == nodes && it.root == root && fresh(it)
      invariant Snapshot(forest, nodes, now, table)
      invariant order == |rows|
      invariant RowsIn(table, rows, NonRoots(nodes, it.produced))
      decreases |tree| - |it.produced|
    {
      ghost var produced := it.produced;
      var x, row := NextRow(forest, it, order, now, nodes, table);
      NonRootsStep(nodes, produced, x);
      if row.Some? {
        if row.value.Err? {
          assert x in tree;
          return Err(row.value.error);
        }
        RowsInStep(table, rows, NonRoots(nodes, produced), row.value.value, x);
        rows := rows + [row.value.value];
        order := order + 1;
      }
    }
    assert it.produced == tree;
    r := Ok(rows);
  }

  /** Records and failures found in the table of the arena's records, read
      back on the arena itself. */
  lemma TreeRowsMeaning(nodes: Arena, tree: seq<nat>, now: int, rows: Result<seq<NodeRow>>)
    requires WellFormed(nodes)
    requires rows.Ok? ==> RowsIn(TableFrom(nodes, 0, now), rows.value, NonRoots(nodes, tree))
    requires rows.Err? ==> exists y :: y in tree && y < |nodes| && TableFrom(nodes, 0, now)[y].Err?
    ensures rows.Ok? ==> RowsOf(nodes, rows.value, NonRoots(nodes, tree), now)
    ensures rows.Err? ==> exists y :: y in tree && ParametersFail(nodes, y)
  {
    if rows.Err? {
      var y :| y in tree && y < |nodes| && TableFrom(nodes, 0, now)[y].Err?;
      TableFromEntry(nodes, 0, y, now);
    } else {
      RowsInTable(nodes, rows.value, NonRoots(nodes, tree), now);
    }
  }

  /** `getStackTrace`: the root's thread id and thread total, then one
      record per node of the tree in preorder, skipping the root. Writing a
      record fails when its parameters cannot be retrieved. */
  method GetStackTrace(forest: Forest<ExecutionNode>, root: nat, now: int) returns (r: Result<StackTrace>)
    requires forest.Valid() && root < |forest.nodes| && WatchesValid(forest.nodes)
    ensures r.Ok? ==> r.value.threadId == forest.nodes[root].obj.threadId
    ensures r.Ok? ==> r.value.totalTime == SumElapsed(forest.nodes, forest.nodes[root].children, now)
    ensures r.Ok? ==> RowsOf(forest.nodes, r.value.rows, NonRoots(forest.nodes, Preorder(forest.nodes, root)), now)
    ensures r.Err? ==> exists y :: y in Preorder(forest.nodes, root) && ParametersFail(forest.nodes, y)
  {
    ghost var nodes := forest.nodes;
    ghost var table := TableFrom(nodes, 0, now);
    var rootNode := forest.GetObject(root);
    var threadId := rootNode.threadId;
    var totalTime := GetTotalTimeForThread(forest, root, now);
    assert unchanged(Objects(nodes)) && unchanged(Watches(nodes));
    var rows := TreeRows(forest, root, now, table);
    assert unchanged(Objects(nodes)) && unchanged(Watches(nodes));
    TreeRowsMeaning(nodes, Preorder(nodes, root), now, rows);
    if rows.Err? {
      return Err(rows.error);
    }
    r := Ok(StackTrace(threadId, totalTime, rows.value));
  }

  /** The adjusted times of the records, added up. */
  function SumAdjusted(rows: seq<NodeRow>): int
  {
    if rows == [] then 0 else SumAdjusted(rows[..|rows| - 1]) + rows[|rows| - 1].adjustedTime
  }

  /** Records of adjusted nodes add up to the nodes' net times. */
  lemma {:induction false} SumAdjustedIsNetTimes(nodes: Arena, rows: seq<NodeRow>, ys: seq<nat>, now: int)
    requires RowsOf(nodes, rows, ys, now)
    requires forall k :: 0 <= k < |ys| ==> Adjusted(nodes, ys[k], now)
    ensures SumAdjusted(rows) == SumNetTime(nodes, ys, now)
  {
    if rows != [] {
      var n := |rows| - 1;
      assert RowOf(nodes, rows[n], ys[n], n, now) && Adjusted(nodes, ys[n], now);
      SumAdjustedIsNetTimes(nodes, rows[..n], ys[..n], now);
    }
  }

  /** Once net times are set, the adjusted times of a thread's stack trace
      add up to the thread's total time: each call's own time is counted
      once. */
  lemma StackTraceAddsUp(nodes: Arena, root: nat, trace: StackTrace, now: int)
    requires WellFormed(nodes) && root < |nodes| && nodes[root].parent.None?
    requires forall y :: y in Preorder(nodes, root) ==> Adjusted(nodes, y, now)
    requires trace.totalTime == SumElapsed(nodes, nodes[root].children, now)
    requires RowsOf(nodes, trace.rows, NonRoots(nodes, Preorder(nodes, root)), now)
    ensures SumAdjusted(trace.rows) == trace.totalTime
  {
    var ys := NonRoots(nodes, Preorder(nodes, root));
    NonRootsOfTree(nodes, root);
    assert Preorder(nodes, root) == [root] + ys;
    forall k | 0 <= k < |ys| ensures Adjusted(nodes, ys[k], now) {
      assert ys[k] in Preorder(nodes, root);
    }
    SumAdjustedIsNetTimes(nodes, trace.rows, ys, now);
    ThreadTotalIsNetTimes(nodes, root, now);
  }

  // ---------------------------------------------------------------------
  // Method summaries

  /** The net times of `list`, added up. */
  ghost function SumNet(list: seq<ExecutionNode>): int
    reads list
  {
    if list == [] then 0 else SumNet(list[..|list| - 1]) + list[|list| - 1].netTime
  }

  /** `getTotalTime`: the net times of the list's nodes, added up. */
  method GetTotalTime(list: seq<ExecutionNode>) returns (t: int)
    ensures t == SumNet(list)
  {
    t := 0;
    for i := 0 to |list|
      invariant t == SumNet(list[..i])
    {
      assert list[..i + 1][..i] == list[..i];
      t := t + list[i].netTime;
    }
    assert list[..|list|] == list;
  }

  /** Java's `/` on `long`: the quotient truncated toward zero. */
  function Quot(a: int, b: int): (q: int)
    requires b > 0
    ensures a >= 0 ==> q >= 0 && b * q <= a < b * q + b
    ensures a < 0 ==> q <= 0 && b * q - b < a <= b * q
  {
    if a >= 0 then DivisionBounds(a, b); a / b
    else DivisionBounds(-a, b); -((-a) / b)
  }

  /** Euclidean division of a natural number leaves a remainder below the
      divisor. */
  lemma DivisionBounds(a: int, b: int)
    requires a >= 0 && b > 0
    ensures a / b >= 0 && b * (a / b) <= a < b * (a / b) + b
  {
    var q, m := a / b, a % b;
    assert a == b * q + m && 0 <= m < b;
  }

  /** `getAverageTime`: the total over the number of nodes, which throws an
      ArithmeticException on an empty list. */
  method GetAverageTime(list: seq<ExecutionNode>) returns (r: Result<int>)
    ensures r.Err? <==> list == []
    ensures r.Err? ==> r.error == Arithmetic
    ensures r.Ok? ==> r.value == Quot(SumNet(list), |list|)
  {
    var total := GetTotalTime(list);
    if |list| == 0 {
      return Err(Arithmetic);
    }
    r := Ok(Quot(total, |list|));
  }

  /** The total a key's list was given; every key sorted is a key of the map. */
  function Total(totals: map<NodeKey, int>, k: NodeKey): int
  {
    if k in totals then totals[k] else 0
  }

  /** The sign of a `long` difference, as the comparator returns it. */
  function Sign(d: int): (s: int)
    ensures s == 0 <==> d == 0
    ensures s < 0 <==> d < 0
  {
    if d == 0 then 0 else if d > 0 then 1 else -1
  }

  /** The comparator of `getSortedKeySet` as written: larger totals first,
      and 0, "the same element", for equal totals. */
  function ByTotal(totals: map<NodeKey, int>): (NodeKey, NodeKey) -> int
  {
    (one: NodeKey, two: NodeKey) => Sign(Total(totals, two) - Total(totals, one))
  }

  /** Each key as a TreeSet element: a TreeMap entry with no value. */
  function Elements(keys: seq<NodeKey>): (r: seq<(NodeKey, ())>)
    ensures |r| == |keys| && forall i :: 0 <= i < |keys| ==> r[i] == (keys[i], ())
  {
    seq(|keys|, i requires 0 <= i < |keys| => (keys[i], ()))
  }

  /** The elements of a TreeSet, in its order. */
  function KeysOf(entries: seq<(NodeKey, ())>): (r: seq<NodeKey>)
    ensures |r| == |entries| && forall i :: 0 <= i < |entries| ==> r[i] == entries[i].0
  {
    seq(|entries|, i requires 0 <= i < |entries| => entries[i].0)
  }

  /** `getSortedKeySet` as written: the keys added one at a time to a
      TreeSet under `ByTotal`. */
  function SortedKeySetAsWritten(keys: seq<NodeKey>, totals: map<NodeKey, int>): (r: seq<NodeKey>)
    ensures |r| <= |keys| && forall k :: k in r ==> k in keys
  {
    ElementKeys(keys, ByTotal(totals));
    KeysOf(TreeMaps.Copy(Elements(keys), ByTotal(totals)))
  }

  /** Every key a TreeSet copy of `keys` holds is one of `keys`. */
  lemma ElementKeys(keys: seq<NodeKey>, cmp: (NodeKey, NodeKey) -> int)
    ensures forall k :: k in KeysOf(TreeMaps.Copy(Elements(keys), cmp)) ==> k in keys
  {
    var c := TreeMaps.Copy(Elements(keys), cmp);
    TreeMaps.CopyKeys(Elements(keys), cmp);
    forall k | k in KeysOf(c) ensures k in keys {
      var j :| 0 <= j < |c| && KeysOf(c)[j] == k;
      var i :| 0 <= i < |keys| && Elements(keys)[i].0 == c[j].0;
    }
  }

  /** Two methods that took the same total time: the TreeSet finds the
      second equal to the first and keeps only the first, so the second has
      no summary. */
  lemma SortedKeySetDropsTies()
    ensures var a := NodeKey(JPO, Some("A"), Some("m"));
      var b := NodeKey(JPO, Some("B"), Some("m"));
      var totals := map[a := 5, b := 5];
      a != b && SortedKeySetAsWritten([a, b], totals) == [a]
  {
    var a := NodeKey(JPO, Some("A"), Some("m"));
    var b := NodeKey(JPO, Some("B"), Some("m"));
    var totals := map[a := 5, b := 5];
    var es := Elements([a, b]);
    assert es == [(a, ()), (b, ())];
    assert es[..1] == [(a, ())];
    assert TreeMaps.Copy(es[..1], ByTotal(totals)) == [(a, ())] by {
      assert es[..1][..0] == [];
    }
    assert ByTotal(totals)(b, a) == 0;
  }

  /** `compareTo` on a possibly null string, null first. */
  function OptionCompare(a: Option<string>, b: Option<string>): int
  {
    if a.None? then (if b.None? then 0 else -1)
    else if b.None? then 1
    else JavaStrings.CompareTo(a.value, b.value)
  }

  lemma OptionCompareOrder(a: Option<string>, b: Option<string>, c: Option<string>)
    ensures OptionCompare(a, b) == 0 <==> a == b
    ensures OptionCompare(a, b) < 0 <==> OptionCompare(b, a) > 0
    ensures OptionCompare(a, b) < 0 && OptionCompare(b, c) < 0 ==> OptionCompare(a, c) < 0
  {
    if a.Some? && b.Some? {
      JavaStrings.CompareToZeroIffEqual(a.value, b.value);
      JavaStrings.CompareToAntisymmetric(a.value, b.value);
      if c.Some? && OptionCompare(a, b) < 0 && OptionCompare(b, c) < 0 {
        JavaStrings.CompareToTransitive(a.value, b.value, c.value);
      }
    }
  }

  /** A total order on keys: by type position, then name, then method. */
  function KeyOrder(a: NodeKey, b: NodeKey): int
  {
    if a.nodeType != b.nodeType then Ordinal(a.nodeType) - Ordinal(b.nodeType)
    else if a.name != b.name then OptionCompare(a.name, b.name)
    else OptionCompare(a.methodName, b.methodName)
  }

  lemma KeyOrderPair(a: NodeKey, b: NodeKey)
    ensures KeyOrder(a, b) == 0 <==> a == b
    ensures KeyOrder(a, b) < 0 <==> KeyOrder(b, a) > 0
  {
    OrdinalInjective(a.nodeType, b.nodeType);
    OptionCompareOrder(a.name, b.name, b.name);
    OptionCompareOrder(a.methodName, b.methodName, b.methodName);
  }

  lemma KeyOrderTransitive(a: NodeKey, b: NodeKey, c: NodeKey)
    requires KeyOrder(a, b) < 0 && KeyOrder(b, c) < 0
    ensures KeyOrder(a, c) < 0
  {
    OrdinalInjective(a.nodeType, b.nodeType);
    OrdinalInjective(b.nodeType, c.nodeType);
    OrdinalInjective(a.nodeType, c.nodeType);
    OptionCompareOrder(a.name, b.name, c.name);
    OptionCompareOrder(a.methodName, b.methodName, c.methodName);
    OptionCompareOrder(a.name, c.name, c.name);
    OptionCompareOrder(a.methodName, c.methodName, c.methodName);
  }

  /** The comparator `getSortedKeySet` evidently needs: larger totals
      first, and keys of equal totals told apart by `KeyOrder`. */
  function ByTotalThenKey(totals: map<NodeKey, int>): (NodeKey, NodeKey) -> int
  {
    (one: NodeKey, two: NodeKey) =>
      var d := Total(totals, two) - Total(totals, one);
      if d != 0 then Sign(d) else KeyOrder(one, two)
  }

  /** It is a total order, whatever the totals. */
  lemma ByTotalThenKeyTotal(totals: map<NodeKey, int>)
    ensures TreeMaps.TotalOrder(ByTotalThenKey(totals))
  {
    var cmp := ByTotalThenKey(totals);
    forall a: NodeKey, b: NodeKey ensures (cmp(a, b) == 0 <==> a == b) && (cmp(a, b) < 0 <==> cmp(b, a) > 0) {
      KeyOrderPair(a, b);
    }
    forall a: NodeKey, b: NodeKey, c: NodeKey | cmp(a, b) < 0 && cmp(b, c) < 0
      ensures cmp(a, c) < 0
    {
      var ta, tb, tc := Total(totals, a), Total(totals, b), Total(totals, c);
      assert cmp(a, b) == if tb - ta != 0 then Sign(tb - ta) else KeyOrder(a, b);
      assert cmp(b, c) == if tc - tb != 0 then Sign(tc - tb) else KeyOrder(b, c);
      assert cmp(a, c) == if tc - ta != 0 then Sign(tc - ta) else KeyOrder(a, c);
      if ta == tb == tc {
        KeyOrderTransitive(a, b, c);
      }
    }
  }

  /** `getSortedKeySet` corrected: the keys added one at a time to a TreeSet
      under `ByTotalThenKey`. */
  function SortedKeySet(keys: seq<NodeKey>, totals: map<NodeKey, int>): (r: seq<NodeKey>)
    ensures |r| <= |keys| && forall k :: k in r ==> k in keys
  {
    ElementKeys(keys, ByTotalThenKey(totals));
    KeysOf(TreeMaps.Copy(Elements(keys), ByTotalThenKey(totals)))
  }

  /** With the corrected comparator every key of the map is kept, once. */
  lemma SortedKeySetKeepsAll(keys: seq<NodeKey>, totals: map<NodeKey, int>)
    requires forall i, j :: 0 <= i < j < |keys| ==> keys[i] != keys[j]
    ensures multiset(SortedKeySet(keys, totals)) == multiset(keys)
  {
    var cmp := ByTotalThenKey(totals);
    var es := Elements(keys);
    ByTotalThenKeyTotal(totals);
    forall i, j | 0 <= i < j < |es| ensures cmp(es[j].0, es[i].0) != 0 {
      assert es[j].0 != es[i].0;
    }
    TreeMaps.CopyKeepsAll(es, cmp);
    var c := TreeMaps.Copy(es, cmp);
    assert KeysOf(es) == keys;
    forall k ensures multiset(KeysOf(c))[k] == multiset(keys)[k] {
      KeysOfCount(c, k);
      KeysOfCount(es, k);
    }
    assert multiset(KeysOf(c)) == multiset(keys);
  }

  /** With the corrected comparator the keys come largest total first. */
  lemma SortedKeySetDescending(keys: seq<NodeKey>, totals: map<NodeKey, int>)
    ensures forall i, j :: 0 <= i < j < |SortedKeySet(keys, totals)| ==>
      Total(totals, SortedKeySet(keys, totals)[i]) >= Total(totals, SortedKeySet(keys, totals)[j])
  {
    var cmp := ByTotalThenKey(totals);
    ByTotalThenKeyTotal(totals);
    TreeMaps.CopyAscending(Elements(keys), cmp);
    var c := TreeMaps.Copy(Elements(keys), cmp);
    forall i, j | 0 <= i < j < |c| ensures Total(totals, c[i].0) >= Total(totals, c[j].0) {
      var ti, tj := Total(totals, c[i].0), Total(totals, c[j].0);
      assert cmp(c[i].0, c[j].0) < 0;
      assert cmp(c[i].0, c[j].0) == if tj - ti != 0 then Sign(tj - ti) else KeyOrder(c[i].0, c[j].0);
    }
  }

  /** A key occurs in the elements' keys as often as its element does. */
  lemma {:induction false} KeysOfCount(entries: seq<(NodeKey, ())>, k: NodeKey)
    ensures multiset(KeysOf(entries))[k] == multiset(entries)[(k, ())]
  {
    if entries != [] {
      var init := entries[..|entries| - 1];
      var last := entries[|entries| - 1];
      KeysOfCount(init, k);
      assert KeysOf(entries) == KeysOf(init) + [last.0];
      assert entries == init + [last];
      match last.1 { case () => }
    }
  }

  /** The key a summary is written for. */
  function SummaryKey(s: MethodSummary): NodeKey
  {
    NodeKey(s.nodeType, s.name, s.methodName)
  }

  /** The summary of key `k` listing the nodes `list` whose net times add
      up to `total`. */
  function SummaryFor(k: NodeKey, list: seq<ExecutionNode>, total: int): MethodSummary
    requires list != []
  {
    MethodSummary(k.nodeType, k.name, k.methodName, |list|, Quot(total, |list|), total)
  }

  /** `s` summarises the nodes `list`: how many there are, their average
      and their total net time. */
  ghost predicate SummaryOf(s: MethodSummary, k: NodeKey, list: seq<ExecutionNode>)
    reads list
  {
    list != [] && s == SummaryFor(k, list, SumNet(list))
  }

  /** The total of every key, as the comparator of `getSortedKeySet`
      computes it with `getTotalTime`. */
  method TotalsOf(m: map<NodeKey, seq<ExecutionNode>>, keys: seq<NodeKey>) returns (totals: map<NodeKey, int>)
    requires forall k :: k in m <==> k in keys
    ensures forall k :: k in totals <==> k in m
    ensures forall k :: k in totals ==> totals[k] == SumNet(m[k])
  {
    totals := map[];
    for i := 0 to |keys|
      invariant forall k :: k in totals ==> k in m && totals[k] == SumNet(m[k])
      invariant forall j :: 0 <= j < i ==> keys[j] in totals
    {
      var t := GetTotalTime(m[keys[i]]);
      totals := totals[keys[i] := t];
    }
  }

  /** The loop of `getMethodSummary` over the sorted keys. */
  method Summaries(m: map<NodeKey, seq<ExecutionNode>>, sorted: seq<NodeKey>, totals: map<NodeKey, int>)
      returns (r: Result<seq<MethodSummary>>)
    requires forall k :: k in totals <==> k in m
    requires forall k :: k in totals ==> totals[k] == SumNet(m[k])
    requires forall i :: 0 <= i < |sorted| ==> sorted[i] in m
    ensures forall k :: k in totals ==> totals[k] == SumNet(m[k])
    ensures r.Err? <==> exists i :: 0 <= i < |sorted| && m[sorted[i]] == []
    ensures r.Ok? ==> |r.value| == |sorted| && forall i :: 0 <= i < |sorted| ==>
      m[sorted[i]] != [] && r.value[i] == SummaryFor(sorted[i], m[sorted[i]], totals[sorted[i]])
  {
    var summaries: seq<MethodSummary> := [];
    for i := 0 to |sorted|
      invariant forall k :: k in totals ==> totals[k] == SumNet(m[k])
      invariant |summaries| == i
      invariant forall j :: 0 <= j < i ==> m[sorted[j]] != [] && summaries[j] == SummaryFor(sorted[j], m[sorted[j]], totals[sorted[j]])
    {
      var k := sorted[i];
      var list := m[k];
      var average := GetAverageTime(list);
      if average.Err? {
        return Err(average.error);
      }
      var total := GetTotalTime(list);
      summaries := summaries + [MethodSummary(k.nodeType, k.name, k.methodName, |list|, average.value, total)];
    }
    r := Ok(summaries);
  }

  /** `getMethodSummary`: one summary per key of the map, largest total net
      time first. `keys` are the map's keys in its iteration order, which
      decides nothing once ties are broken. Averaging an empty list throws. */
  method GetMethodSummary(m: map<NodeKey, seq<ExecutionNode>>, keys: seq<NodeKey>) returns (r: Result<seq<MethodSummary>>)
    requires forall k :: k in m <==> k in keys
    requires forall i, j :: 0 <= i < j < |keys| ==> keys[i] != keys[j]
    ensures r.Err? <==> exists k :: k in m && m[k] == []
    ensures r.Ok? ==> |r.value| == |keys|
    ensures r.Ok? ==> forall i :: 0 <= i < |r.value| ==>
      SummaryKey(r.value[i]) in m && SummaryOf(r.value[i], SummaryKey(r.value[i]), m[SummaryKey(r.value[i])])
    ensures r.Ok? ==> forall i, j :: 0 <= i < j < |r.value| ==> SummaryKey(r.value[i]) != SummaryKey(r.value[j])
    ensures r.Ok? ==> forall i, j :: 0 <= i < j < |r.value| ==> r.value[i].totalTime >= r.value[j].totalTime
  {
    var totals := TotalsOf(m, keys);
    var sorted := SortedKeySet(keys, totals);
    SortedKeySetKeepsAll(keys, totals);
    SortedKeySetDescending(keys, totals);
    forall i | 0 <= i < |sorted| ensures sorted[i] in m {
      assert sorted[i] in multiset(keys);
    }
    r := Summaries(m, sorted, totals);
    assert |sorted| == |multiset(sorted)| == |multiset(keys)| == |keys|;
    if r.Err? {
      var i :| 0 <= i < |sorted| && m[sorted[i]] == [];
    } else {
      forall k | k in m ensures m[k] != [] {
        assert k in multiset(sorted);
      }
      forall i, j | 0 <= i < j < |sorted| ensures sorted[i] != sorted[j] {
        DistinctInMultiset(keys, sorted, i, j);
      }
    }
  }

  /** A sequence with the multiset of one without repetitions has none. */
  lemma DistinctInMultiset(keys: seq<NodeKey>, sorted: seq<NodeKey>, i: nat, j: nat)
    requires forall a, b :: 0 <= a < b < |keys| ==> keys[a] != keys[b]
    requires multiset(sorted) == multiset(keys) && i < j < |sorted|
    ensures sorted[i] != sorted[j]
  {
    if sorted[i] == sorted[j] {
      var x := sorted[i];
      assert sorted == sorted[..i] + [x] + sorted[i + 1..j] + [x] + sorted[j + 1..];
      assert multiset(sorted)[x] >= 2;
      DistinctCount(keys, x);
    }
  }

  /** Without repetitions, every element occurs at most once. */
  lemma {:induction false} DistinctCount(s: seq<NodeKey>, x: NodeKey)
    requires forall a, b :: 0 <= a < b < |s| ==> s[a] != s[b]
    ensures multiset(s)[x] <= 1
  {
    if s != [] {
      var init := s[..|s| - 1];
      DistinctCount(init, x);
      assert s == init + [s[|s| - 1]];
      if s[|s| - 1] == x {
        assert x !in init;
      }
    }
  }

  // ---------------------------------------------------------------------
  // Triggers and overhead

  /** The record of one counted trigger. */
  function TriggerRowOf(d: TP.TriggerDef, count: nat): TriggerRow
  {
    TriggerRow(d.name, d.revision, d.programName, d.methodName, d.sequenceNumber, count)
  }

  /** The records of the counted triggers whose active flag is `active`, in
      the counter's order. */
  function TriggerRows(entries: seq<(TP.TriggerDef, nat)>, active: bool): seq<TriggerRow>
  {
    if entries == [] then []
    else
      var last := entries[|entries| - 1];
      TriggerRows(entries[..|entries| - 1], active)
        + (if last.0.isActive == active then [TriggerRowOf(last.0, last.1)] else [])
  }

  /** `getTriggers`: a record for every counted trigger with the requested
      active flag. */
  method GetTriggers(entries: seq<(TP.TriggerDef, nat)>, active: bool) returns (list: seq<TriggerRow>)
    ensures list == TriggerRows(entries, active)
  {
    list := [];
    for i := 0 to |entries|
      invariant list == TriggerRows(entries[..i], active)
    {
      assert entries[..i + 1][..i] == entries[..i];
      var trigger := entries[i].0;
      if trigger.isActive == active {
        list := list + [TriggerRowOf(trigger, entries[i].1)];
      }
    }
    assert entries[..|entries|] == entries;
  }

  /** The records of every counted trigger, whatever its flag. */
  function AllTriggerRows(entries: seq<(TP.TriggerDef, nat)>): (r: seq<TriggerRow>)
    ensures |r| == |entries| && forall i :: 0 <= i < |entries| ==> r[i] == TriggerRowOf(entries[i].0, entries[i].1)
  {
    seq(|entries|, i requires 0 <= i < |entries| => TriggerRowOf(entries[i].0, entries[i].1))
  }

  /** The active and the inactive lists of the report share out the
      counted triggers: each is in exactly one of them, with its count. */
  lemma {:induction false} TriggerRowsPartition(entries: seq<(TP.TriggerDef, nat)>)
    ensures multiset(TriggerRows(entries, true)) + multiset(TriggerRows(entries, false)) == multiset(AllTriggerRows(entries))
  {
    if entries != [] {
      var init := entries[..|entries| - 1];
      TriggerRowsPartition(init);
      assert AllTriggerRows(entries) == AllTriggerRows(init) + [TriggerRowOf(entries[|entries| - 1].0, entries[|entries| - 1].1)];
    }
  }

  /** A list holds exactly the records of triggers with its flag. */
  lemma {:induction false} TriggerRowsSelect(entries: seq<(TP.TriggerDef, nat)>, active: bool, row: TriggerRow)
    ensures row in TriggerRows(entries, active) <==>
      exists i :: 0 <= i < |entries| && entries[i].0.isActive == active && row == TriggerRowOf(entries[i].0, entries[i].1)
  {
    if entries != [] {
      var init := entries[..|entries| - 1];
      TriggerRowsSelect(init, active, row);
      if row in TriggerRows(init, active) {
        var i :| 0 <= i < |init| && init[i].0.isActive == active && row == TriggerRowOf(init[i].0, init[i].1);
        assert entries[i] == init[i];
      }
      if exists i :: 0 <= i < |entries| && entries[i].0.isActive == active && row == TriggerRowOf(entries[i].0, entries[i].1) {
        var i :| 0 <= i < |entries| && entries[i].0.isActive == active && row == TriggerRowOf(entries[i].0, entries[i].1);
        if i < |init| {
          assert init[i] == entries[i];
        }
      }
    }
  }

  /** `getMissingTriggers`: a record per counted name, in the counter's
      order, so names sorted in the counter stay sorted. */
  method GetMissingTriggers(entries: seq<(string, nat)>) returns (list: seq<MissingTriggerRow>)
    ensures |list| == |entries|
    ensures forall i :: 0 <= i < |entries| ==> list[i] == MissingTriggerRow(entries[i].0, entries[i].1)
    ensures TreeMaps.Ascending(entries, JavaStrings.CompareTo) ==>
      forall i, j :: 0 <= i < j < |list| ==> JavaStrings.CompareTo(list[i].name, list[j].name) < 0
  {
    list := [];
    for i := 0 to |entries|
      invariant |list| == i
      invariant forall j :: 0 <= j < i ==> list[j] == MissingTriggerRow(entries[j].0, entries[j].1)
    {
      list := list + [MissingTriggerRow(entries[i].0, entries[i].1)];
    }
  }

  /** `getTriggerManagerOverhead`: what each trigger-manager stopwatch reads
      at `now`, in the order they were created. */
  method GetTriggerManagerOverhead(watches: seq<StopWatch.DefaultStopWatch>, now: int) returns (timings: seq<int>)
    requires forall i :: 0 <= i < |watches| ==> watches[i].Valid()
    ensures |timings| == |watches|
    ensures forall i :: 0 <= i < |watches| ==> timings[i] == StopWatch.ElapsedAt(StopWatch.Run(watches[i].history), now)
  {
    timings := [];
    for i := 0 to |watches|
      invariant |timings| == i
      invariant forall j :: 0 <= j < i ==> timings[j] == StopWatch.ElapsedAt(StopWatch.Run(watches[j].history), now)
    {
      timings := timings + [watches[i].GetElapsedTime(now)];
    }
  }

  // ---------------------------------------------------------------------
  // The report

  /** One `XEnoviaProfilerReport`. */
  datatype Report = Report(
    overhead: seq<int>,
    activeTriggers: seq<TriggerRow>,
    inactiveTriggers: seq<TriggerRow>,
    missingTriggers: seq<MissingTriggerRow>,
    methodSummary: seq<MethodSummary>,
    stackTraces: seq<StackTrace>)

  /** The loop of `createReport` over the thread roots, taken after every
      node was adjusted: one stack trace per root, each adding up to its
      thread total. A record that cannot be written ends the loop. */
  method StackTraces(forest: Forest<ExecutionNode>, roots: seq<nat>, now: int) returns (r: Result<seq<StackTrace>>)
    requires forest.Valid() && WatchesValid(forest.nodes)
    requires forall i :: 0 <= i < |roots| ==> roots[i] < |forest.nodes| && forest.nodes[roots[i]].parent.None?
    requires forall i, y :: 0 <= i < |roots| && y in Preorder(forest.nodes, roots[i]) ==> Adjusted(forest.nodes, y, now)
    ensures r.Ok? ==> |r.value| == |roots|
    ensures r.Ok? ==> forall i :: 0 <= i < |roots| ==> TraceOf(forest.nodes, roots[i], r.value[i], now)
    ensures r.Err? ==> exists i, y :: 0 <= i < |roots| && y in Preorder(forest.nodes, roots[i]) && ParametersFail(forest.nodes, y)
  {
    ghost var nodes := forest.nodes;
    var traces: seq<StackTrace> := [];
    for i := 0 to |roots|
      invariant |traces| == i
      invariant forall j :: 0 <= j < i ==> TraceOf(nodes, roots[j], traces[j], now)
    {
      assert unchanged(Objects(nodes)) && unchanged(Watches(nodes));
      var trace := GetStackTrace(forest, roots[i], now);
      assert unchanged(Objects(nodes)) && unchanged(Watches(nodes));
      if trace.Err? {
        return Err(trace.error);
      }
      assert TraceOf(nodes, roots[i], trace.value, now) by {
        StackTraceAddsUp(nodes, roots[i], trace.value, now);
      }
      traces := traces + [trace.value];
    }
    r := Ok(traces);
  }

  /** `trace` is the stack trace of the tree at `root`: its thread, its
      total time, the records of the tree's nodes below the root in
      preorder, and those records adding up to the total. */
  ghost predicate TraceOf(nodes: Arena, root: nat, trace: StackTrace, now: int)
    reads Objects(nodes), Watches(nodes)
  {
    WellFormed(nodes) && root < |nodes|
    && trace.threadId == nodes[root].obj.threadId
    && trace.totalTime == SumElapsed(nodes, nodes[root].children, now)
    && RowsOf(nodes, trace.rows, NonRoots(nodes, Preorder(nodes, root)), now)
    && SumAdjusted(trace.rows) == trace.totalTime
  }

  /** The body of `createReport` after the net times are written: the
      overhead, the trigger rows, the missing-trigger rows, the method
      summaries and one stack trace per root, in `roots`' order. Any
      exception ends the report. */
  method GatherReport(forest: Forest<ExecutionNode>, roots: seq<nat>, executionNodeMap: map<NodeKey, seq<ExecutionNode>>,
      keys: seq<NodeKey>, triggerOverhead: seq<StopWatch.DefaultStopWatch>, missingTriggers: seq<(string, nat)>,
      triggers: seq<(TP.TriggerDef, nat)>, now: int) returns (r: Result<Report>)
    requires forest.Valid() && WatchesValid(forest.nodes)
    requires forall i :: 0 <= i < |roots| ==> roots[i] < |forest.nodes| && forest.nodes[roots[i]].parent.None?
    requires forall i, y :: 0 <= i < |roots| && y in Preorder(forest.nodes, roots[i]) ==> Adjusted(forest.nodes, y, now)
    requires forall k :: k in executionNodeMap <==> k in keys
    requires forall i, j :: 0 <= i < j < |keys| ==> keys[i] != keys[j]
    requires forall i :: 0 <= i < |triggerOverhead| ==> triggerOverhead[i].Valid()
    ensures (exists k :: k in executionNodeMap && executionNodeMap[k] == []) ==> r.Err?
    ensures r.Err? ==>
      (exists k :: k in executionNodeMap && executionNodeMap[k] == [])
      || exists i, y :: 0 <= i < |roots| && y in Preorder(forest.nodes, roots[i]) && ParametersFail(forest.nodes, y)
    ensures r.Ok? ==> |r.value.overhead| == |triggerOverhead| && forall i :: 0 <= i < |triggerOverhead| ==>
      r.value.overhead[i] == StopWatch.ElapsedAt(StopWatch.Run(triggerOverhead[i].history), now)
    ensures r.Ok? ==> r.value.activeTriggers == TriggerRows(triggers, true)
    ensures r.Ok? ==> r.value.inactiveTriggers == TriggerRows(triggers, false)
    ensures r.Ok? ==> |r.value.missingTriggers| == |missingTriggers| && forall i :: 0 <= i < |missingTriggers| ==>
      r.value.missingTriggers[i] == MissingTriggerRow(missingTriggers[i].0, missingTriggers[i].1)
    ensures r.Ok? ==> |r.value.methodSummary| == |keys|
    ensures r.Ok? ==> forall i :: 0 <= i < |r.value.methodSummary| ==>
      var k := SummaryKey(r.value.methodSummary[i]);
      k in executionNodeMap && SummaryOf(r.value.methodSummary[i], k, executionNodeMap[k])
    ensures r.Ok? ==> forall i, j :: 0 <= i < j < |r.value.methodSummary| ==>
      SummaryKey(r.value.methodSummary[i]) != SummaryKey(r.value.methodSummary[j])
      && r.value.methodSummary[i].totalTime >= r.value.methodSummary[j].totalTime
    ensures r.Ok? ==> |r.value.stackTraces| == |roots| && forall i :: 0 <= i < |roots| ==>
      TraceOf(forest.nodes, roots[i], r.value.stackTraces[i], now)
  {
    var overhead := GetTriggerManagerOverhead(triggerOverhead, now);
    var activeTriggers := GetTriggers(triggers, true);
    var inactiveTriggers := GetTriggers(triggers, false);
    var missing := GetMissingTriggers(missingTriggers);
    var summary := GetMethodSummary(executionNodeMap, keys);
    if summary.Err? {
      return Err(summary.error);
    }
    assert unchanged(Objects(forest.nodes)) && unchanged(Watches(forest.nodes));
    var traces := StackTraces(forest, roots, now);
    if traces.Err? {
      return Err(traces.error);
    }
    r := Ok(Report(overhead, activeTriggers, inactiveTriggers, missing, summary.value, traces.value));
  }

  /** `createReport` without the file and the XML marshalling: net times
      are written into every node of every thread's tree before anything
      else is gathered, so every stack trace adds up to its thread total. */
  method CreateReport(forest: Forest<ExecutionNode>, roots: seq<nat>, executionNodeMap: map<NodeKey, seq<ExecutionNode>>,
      keys: seq<NodeKey>, triggerOverhead: seq<StopWatch.DefaultStopWatch>, missingTriggers: seq<(string, nat)>,
      triggers: seq<(TP.TriggerDef, nat)>, now: int) returns (r: Result<Report>)
    requires forest.Valid() && WatchesValid(forest.nodes) && OwnObjects(forest.nodes)
    requires forall i :: 0 <= i < |roots| ==> roots[i] < |forest.nodes| && forest.nodes[roots[i]].parent.None?
    requires forall k :: k in executionNodeMap <==> k in keys
    requires forall i, j :: 0 <= i < j < |keys| ==> keys[i] != keys[j]
    requires forall i :: 0 <= i < |triggerOverhead| ==> triggerOverhead[i].Valid()
    modifies Objects(forest.nodes)`netTime
    ensures forall i, y :: 0 <= i < |roots| && y in Preorder(forest.nodes, roots[i]) ==> Adjusted(forest.nodes, y, now)
    ensures forall i :: 0 <= i < |forest.nodes| ==> forest.nodes[i].obj.methodName == old(forest.nodes[i].obj.methodName) && forest.nodes[i].obj.parameters == old(forest.nodes[i].obj.parameters)
    ensures forall y :: 0 <= y < |forest.nodes| && (forall i :: 0 <= i < |roots| ==> y !in Preorder(forest.nodes, roots[i])) ==>
      forest.nodes[y].obj.netTime == old(forest.nodes[y].obj.netTime)
    ensures (exists k :: k in executionNodeMap && executionNodeMap[k] == []) ==> r.Err?
    ensures r.Err? ==>
      (exists k :: k in executionNodeMap && executionNodeMap[k] == [])
      || exists i, y :: 0 <= i < |roots| && y in Preorder(forest.nodes, roots[i]) && ParametersFail(forest.nodes, y)
    ensures r.Ok? ==> |r.value.overhead| == |triggerOverhead| && forall i :: 0 <= i < |triggerOverhead| ==>
      r.value.overhead[i] == StopWatch.ElapsedAt(StopWatch.Run(triggerOverhead[i].history), now)
    ensures r.Ok? ==> r.value.activeTriggers == TriggerRows(triggers, true)
    ensures r.Ok? ==> r.value.inactiveTriggers == TriggerRows(triggers, false)
    ensures r.Ok? ==> |r.value.missingTriggers| == |missingTriggers| && forall i :: 0 <= i < |missingTriggers| ==>
      r.value.missingTriggers[i] == MissingTriggerRow(missingTriggers[i].0, missingTriggers[i].1)
    ensures r.Ok? ==> |r.value.methodSummary| == |keys|
    ensures r.Ok? ==> forall i :: 0 <= i < |r.value.methodSummary| ==>
      var k := SummaryKey(r.value.methodSummary[i]);
      k in executionNodeMap && SummaryOf(r.value.methodSummary[i], k, executionNodeMap[k])
    ensures r.Ok? ==> forall i, j :: 0 <= i < j < |r.value.methodSummary| ==>
      SummaryKey(r.value.methodSummary[i]) != SummaryKey(r.value.methodSummary[j])
      && r.value.methodSummary[i].totalTime >= r.value.methodSummary[j].totalTime
    ensures r.Ok? ==> |r.value.stackTraces| == |roots| && forall i :: 0 <= i < |roots| ==>
      TraceOf(forest.nodes, roots[i], r.value.stackTraces[i], now)
  {
    var rootSet := set i | 0 <= i < |roots| :: roots[i];
    SetAdjustedTimes(forest, rootSet, now);
    forall i, y | 0 <= i < |roots| && y in Preorder(forest.nodes, roots[i])
      ensures Adjusted(forest.nodes, y, now)
    {
      assert roots[i] in rootSet;
    }
    forall y | 0 <= y < |forest.nodes| && (forall i :: 0 <= i < |roots| ==> y !in Preorder(forest.nodes, roots[i]))
      ensures forest.nodes[y].obj.netTime == old(forest.nodes[y].obj.netTime)
    {
      assert y !in TreeNodes(forest.nodes, rootSet);
    }
    label adjusted:
    r := GatherReport(forest, roots, executionNodeMap, keys, triggerOverhead, missingTriggers, triggers, now);
    assert unchanged@adjusted(Objects(forest.nodes)) && unchanged@adjusted(Watches(forest.nodes));
  }
}
