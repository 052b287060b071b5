/** com.highbar.tools.mri.monitor.MRIProfiler: the process-wide record of a
    profiling session. Every profiled call is pushed as an execution node on
    its thread's execution stack, becoming a child of the node on top, and is
    listed with the nodes of the same method; the thread's first push starts
    a new call tree under a ROOT node. Trigger invocations, triggers without
    parameters and trigger manager start-up times are counted alongside. */
module Profiler {
  import opened Wrappers
  import JavaStrings
  import StopWatch
  import opened ExecutionNodes
  import TP = TriggerParameters
  import JavaFloats
  import opened Trees
  import Tallies
  import TreeMaps

  /** A thread's execution stack in the call trees: every entry is a node,
      the bottom one a recorded root, and each entry a child of the entry
      below it. */
  ghost predicate Chain<T>(nodes: seq<TreeNode<T>>, stack: seq<nat>, roots: set<nat>)
  {
    (forall i :: 0 <= i < |stack| ==> stack[i] < |nodes|)
    && (|stack| > 0 ==> stack[0] in roots)
    && (forall i :: 0 < i < |stack| && stack[i] < |nodes| ==> nodes[stack[i]].parent == Some(stack[i - 1]))
  }

  /** `after` extends `before` and changes no parent link. */
  ghost predicate ParentsKept<T>(before: seq<TreeNode<T>>, after: seq<TreeNode<T>>)
  {
    |before| <= |after| && forall i :: 0 <= i < |before| ==> after[i].parent == before[i].parent
  }

  lemma ChainKept<T>(before: seq<TreeNode<T>>, after: seq<TreeNode<T>>, stack: seq<nat>, roots: set<nat>, roots': set<nat>)
    requires Chain(before, stack, roots) && ParentsKept(before, after) && roots <= roots'
    ensures Chain(after, stack, roots')
  {
  }

  /** A node's position on its thread's stack is its depth in the call
      tree: the root is at 0 and each entry one below the next. */
  lemma {:induction false} ChainLevel<T>(nodes: seq<TreeNode<T>>, stack: seq<nat>, roots: set<nat>, i: nat)
    requires WellFormed(nodes) && Chain(nodes, stack, roots) && RootsValid(nodes, roots) && i < |stack|
    ensures Level(nodes, stack[i]) == i
  {
    if i > 0 {
      ChainLevel(nodes, stack, roots, i - 1);
    }
  }

  /** The recorded roots are root nodes. */
  ghost predicate RootsValid<T>(nodes: seq<TreeNode<T>>, roots: set<nat>)
  {
    forall x :: x in roots ==> x < |nodes| && nodes[x].parent.None?
  }

  /** Every thread's stack is a chain. */
  ghost predicate StacksValid<T>(nodes: seq<TreeNode<T>>, stacks: map<string, seq<nat>>, roots: set<nat>)
  {
    forall t :: t in stacks ==> Chain(nodes, stacks[t], roots)
  }

  /** Growing the arena without changing parents, or recording more roots,
      keeps every stack a chain. */
  lemma StacksKept<T>(before: seq<TreeNode<T>>, after: seq<TreeNode<T>>, stacks: map<string, seq<nat>>, roots: set<nat>, roots': set<nat>)
    requires StacksValid(before, stacks, roots) && ParentsKept(before, after) && roots <= roots'
    ensures StacksValid(after, stacks, roots')
  {
    forall t | t in stacks ensures Chain(after, stacks[t], roots') {
      assert Chain(before, stacks[t], roots);
    }
  }

  /** Putting a stack with a child of its top pushed keeps the stacks
      chains. */
  lemma StacksPush<T>(nodes: seq<TreeNode<T>>, stacks: map<string, seq<nat>>, roots: set<nat>, t: string, stack: seq<nat>, child: nat)
    requires StacksValid(nodes, stacks, roots) && Chain(nodes, stack, roots) && stack != []
    requires child < |nodes| && nodes[child].parent == Some(stack[|stack| - 1])
    ensures StacksValid(nodes, stacks[t := stack + [child]], roots)
  {
  }

  /** Adding a child under the top of `stack` keeps the roots and the
      stacks valid, the stack pushed with the child among them, and the
      top at its depth. */
  lemma PushedChild<T>(before: seq<TreeNode<T>>, after: seq<TreeNode<T>>, stacks: map<string, seq<nat>>, roots: set<nat>,
                       t: string, stack: seq<nat>, obj: T)
    requires WellFormed(after) && RootsValid(before, roots) && StacksValid(before, stacks, roots)
    requires Chain(before, stack, roots) && stack != [] && after == AddChild(before, stack[|stack| - 1], obj)
    ensures RootsValid(after, roots) && StacksValid(after, stacks[t := stack + [|before|]], roots)
    ensures Level(after, stack[|stack| - 1]) == |stack| - 1
  {
    AddChildParents(before, stack[|stack| - 1], obj);
    StacksKept(before, after, stacks, roots, roots);
    ChainKept(before, after, stack, roots, roots);
    StacksPush(after, stacks, roots, t, stack, |before|);
    ChainLevel(after, stack, roots, |stack| - 1);
  }

  /** Popping keeps the stacks chains. */
  lemma StacksPop<T>(nodes: seq<TreeNode<T>>, stacks: map<string, seq<nat>>, roots: set<nat>, t: string)
    requires StacksValid(nodes, stacks, roots) && t in stacks && stacks[t] != []
    ensures StacksValid(nodes, stacks[t := stacks[t][..|stacks[t]| - 1]], roots)
  {
    assert Chain(nodes, stacks[t], roots);
  }

  /** The thread root `getNewExecutionStack` creates for thread `t`. */
  ghost predicate IsThreadRoot(o: ExecutionNode, t: string)
    reads o
  {
    o.nodeType == ROOT && o.name == Some("Root") && o.methodName == None && o.parameters == None && o.threadId == t
  }

  /** The nodes listed under key `k`, none if it has no list yet. */
  function Listed(m: map<NodeKey, seq<ExecutionNode>>, k: NodeKey): seq<ExecutionNode>
  {
    if k in m then m[k] else []
  }

  /** `isJavaTrigger`'s test on the node on top of the stack (`name`,
      `methodName`) and the node it was called from (`callerType`,
      `callerMethod`), with `&&` evaluated left to right so that a null is
      only dereferenced where the Java expression reaches it. */
  function JavaTriggerTest(name: Option<string>, methodName: Option<string>, callerType: NodeType, callerMethod: Option<string>): (r: Result<bool>)
    ensures r == Ok(true) <==>
      name == Some("matrix.db.JPOSupport") && methodName.Some? && JavaStrings.StartsWith(methodName.value, "invokeObject")
      && callerType == TRIGGER_MANAGER && callerMethod.Some? && JavaStrings.StartsWith(callerMethod.value, "mxMain")
    ensures r == Err(NullPointer) <==>
      name.None?
      || (name == Some("matrix.db.JPOSupport") && methodName.None?)
      || (name == Some("matrix.db.JPOSupport") && JavaStrings.StartsWith(methodName.value, "invokeObject")
          && callerType == TRIGGER_MANAGER && callerMethod.None?)
    ensures r.Ok? || r == Err(NullPointer)
  {
    if name.None? then Err(NullPointer)
    else if name.value != "matrix.db.JPOSupport" then Ok(false)
    else if methodName.None? then Err(NullPointer)
    else if !JavaStrings.StartsWith(methodName.value, "invokeObject") then Ok(false)
    else if callerType != TRIGGER_MANAGER then Ok(false)
    else if callerMethod.None? then Err(NullPointer)
    else Ok(JavaStrings.StartsWith(callerMethod.value, "mxMain"))
  }

  /** The key of `missingTriggers`: the trigger name itself. */
  function NameOf(name: string): string
  {
    name
  }

  /** What `TriggerProgramParameters.equals` and `hashCode` look at. */
  function TriggerId(d: TP.TriggerDef): (string, string)
  {
    (d.name, d.revision)
  }

  /** Two objects are one `HashMap` key exactly when `equals` holds. */
  lemma TriggerIdIsEquals(a: TP.TriggerDef, b: TP.TriggerDef)
    ensures TriggerId(a) == TriggerId(b) <==> TP.Equals(a, Some(b))
  {
  }

  /** String `compareTo` orders the keys of `getMissingTriggers`' copy. */
  lemma StringsTotallyOrdered()
    ensures TreeMaps.TotalOrder(JavaStrings.CompareTo)
  {
    forall a: string, b: string ensures JavaStrings.CompareTo(a, b) == 0 <==> a == b {
      JavaStrings.CompareToZeroIffEqual(a, b);
    }
    forall a: string, b: string ensures JavaStrings.CompareTo(a, b) < 0 <==> JavaStrings.CompareTo(b, a) > 0 {
      JavaStrings.CompareToAntisymmetric(a, b);
    }
    forall a: string, b: string, c: string | JavaStrings.CompareTo(a, b) < 0 && JavaStrings.CompareTo(b, c) < 0
      ensures JavaStrings.CompareTo(a, c) < 0
    {
      JavaStrings.CompareToTransitive(a, b, c);
    }
  }

  /** The value a list of distinct keys holds for one of its keys. */
  lemma {:induction false} LastValueOfDistinct<K, V>(from: seq<(K, V)>, i: nat)
    requires i < |from| && forall a, b :: 0 <= a < b < |from| ==> from[a].0 != from[b].0
    ensures TreeMaps.LastValue(from, from[i].0) == Some(from[i].1)
  {
    if i < |from| - 1 {
      LastValueOfDistinct(from[..|from| - 1], i);
    }
  }

  /** A key not in the list has no value. */
  lemma {:induction false} LastValueOfAbsent<K, V>(from: seq<(K, V)>, q: K)
    requires forall a :: 0 <= a < |from| ==> from[a].0 != q
    ensures TreeMaps.LastValue(from, q) == None
  {
    if from != [] {
      LastValueOfAbsent(from[..|from| - 1], q);
    }
  }

  /** The trigger ordering `getTriggers` evidently intends: `compareTo`, with
      ties between different revisions broken by the revision. */
  function CompareWithRevision(a: TP.TriggerDef, b: TP.TriggerDef): (r: int)
    ensures r == 0 ==> TriggerId(a) == TriggerId(b)
    ensures TP.CompareTo(a, b) != 0 ==> r == TP.CompareTo(a, b)
  {
    var byKey := TP.CompareTo(a, b);
    if byKey != 0 then byKey
    else
      JavaStrings.CompareToZeroIffEqual(a.revision, b.revision);
      JavaStrings.CompareTo(a.revision, b.revision)
  }

  /** As written, `getTriggers` copies the counts into a map ordered by
      `compareTo` alone, which finds two triggers of one name and sequence
      number but different revisions equal: the second count overwrites the
      first and the second trigger disappears. */
  lemma TriggersCopyLosesCount()
    ensures var a := TP.TriggerDef("T", "0", "", "", "", "1", "", "", [], true, true);
      var b := a.(revision := "1");
      !TP.Equals(a, Some(b))
      && TreeMaps.Copy([(a, 1), (b, 1)], TP.CompareTo) == [(a, 1)]
  {
    var a := TP.TriggerDef("T", "0", "", "", "", "1", "", "", [], true, true);
    var b := a.(revision := "1");
    assert TP.CompareTo(b, a) == 0 by {
      JavaFloats.DigitParses('1');
      assert TP.Sequence(a) == Some(JavaFloats.Float(1.0, false)) == TP.Sequence(b);
    }
    assert [(a, 1), (b, 1)][..1] == [(a, 1)];
  }

  /** Ordered with the revision as a tie-break, the copy keeps every trigger
      and its count. */
  lemma TriggersCopyKeepsAll(entries: seq<(TP.TriggerDef, nat)>)
    requires Tallies.DistinctKeys(entries, TriggerId)
    ensures multiset(TreeMaps.Copy(entries, CompareWithRevision)) == multiset(entries)
  {
    TreeMaps.CopyKeepsAll(entries, CompareWithRevision);
  }

  /** How many times `name` was reported missing in `log`; none if never. */
  ghost function MissingCount(log: seq<string>, name: string): Option<nat>
  {
    var n := Tallies.Occurrences(log, name, NameOf);
    if n == 0 then None else Some(n)
  }

  /** The sorted copy of the missing-trigger counter reads, for every name,
      the number of times it was added. */
  lemma CopiedTallyCounts(log: seq<string>, k: string)
    ensures TreeMaps.Get(TreeMaps.Copy(Tallies.Tally(log, NameOf), JavaStrings.CompareTo), k, JavaStrings.CompareTo)
      == MissingCount(log, k)
  {
    var entries := Tallies.Tally(log, NameOf);
    assert TreeMaps.Get(TreeMaps.Copy(entries, JavaStrings.CompareTo), k, JavaStrings.CompareTo)
      == TreeMaps.LastValue(entries, k) by {
      StringsTotallyOrdered();
      TreeMaps.CopyGet(entries, k, JavaStrings.CompareTo);
    }
    Tallies.TallyCounts(log, NameOf, k);
    var i := Tallies.Find(entries, k, NameOf);
    if i < |entries| {
      assert forall a, b :: 0 <= a < b < |entries| ==> entries[a].0 != entries[b].0 by {
        Tallies.TallyDistinct(log, NameOf);
      }
      Tallies.TallyPositive(log, NameOf);
      LastValueOfDistinct(entries, i);
    } else {
      LastValueOfAbsent(entries, k);
    }
  }

  /** The execution stacks after `push` of a node of thread `t`, where `n`
      is the next free tree node: a thread without a stack gets one holding
      its new root `n` and the node `n + 1`; an empty stack stays empty (the
      push throws); otherwise `n` goes on top. */
  function StacksAfterPush(stacks: map<string, seq<nat>>, t: string, n: nat): (r: map<string, seq<nat>>)
    ensures r.Keys == stacks.Keys + {t}
    ensures forall u :: u in stacks && u != t ==> r[u] == stacks[u]
  {
    if t !in stacks then stacks[t := [n, n + 1]]
    else if stacks[t] == [] then stacks
    else stacks[t := stacks[t] + [n]]
  }

  /** The execution stacks after `pop` on thread `t`: its top is removed;
      without a stack or with an empty one nothing changes (the pop throws). */
  function StacksAfterPop(stacks: map<string, seq<nat>>, t: string): (r: map<string, seq<nat>>)
    ensures r.Keys == stacks.Keys
    ensures forall u :: u in stacks && u != t ==> r[u] == stacks[u]
  {
    if t !in stacks || stacks[t] == [] then stacks
    else stacks[t := stacks[t][..|stacks[t]| - 1]]
  }

  /** A pop undoes a push on the same thread; after the thread's first push
      the pop leaves its new root on the stack. */
  lemma PopUndoesPush(stacks: map<string, seq<nat>>, t: string, n: nat)
    ensures t in stacks && stacks[t] != [] ==> StacksAfterPop(StacksAfterPush(stacks, t, n), t) == stacks
    ensures t !in stacks ==> StacksAfterPop(StacksAfterPush(stacks, t, n), t) == stacks[t := [n]]
  {
    if t in stacks && stacks[t] != [] {
      assert (stacks[t] + [n])[..|stacks[t]|] == stacks[t];
    }
    if t !in stacks {
      assert [n, n + 1][..1] == [n];
    }
  }

  /** One advised call on a thread: the arena index its push records, and
      the advised calls its body makes, in order, each nested inside it. */
  datatype Call = Call(node: nat, inner: seq<Call>)

  /** The execution stacks after `proceed` of call `c` on thread `t`: the
      push, the nested calls, then the pop. */
  function RunCall(stacks: map<string, seq<nat>>, t: string, c: Call): map<string, seq<nat>>
    decreases c
  {
    StacksAfterPop(RunCalls(StacksAfterPush(stacks, t, c.node), t, c.inner), t)
  }

  /** The execution stacks after the calls `cs`, one after the other. */
  function RunCalls(stacks: map<string, seq<nat>>, t: string, cs: seq<Call>): map<string, seq<nat>>
    decreases cs
  {
    if cs == [] then stacks else RunCalls(RunCall(stacks, t, cs[0]), t, cs[1..])
  }

  /** However deeply calls nest inside an advised call, its pop takes the
      thread's stack back to what it was before the push; the thread's first
      call leaves its new root behind. */
  lemma {:induction false} RunCallRestores(stacks: map<string, seq<nat>>, t: string, c: Call)
    ensures t in stacks && stacks[t] != [] ==> RunCall(stacks, t, c) == stacks
    ensures t !in stacks ==> RunCall(stacks, t, c) == stacks[t := [c.node]]
    decreases c
  {
    if t !in stacks || stacks[t] != [] {
      var pushed := StacksAfterPush(stacks, t, c.node);
      assert t in pushed && pushed[t] != [];
      RunCallsRestore(pushed, t, c.inner);
      PopUndoesPush(stacks, t, c.node);
    }
  }

  /** A run of complete calls on a thread that already has a stack leaves
      every stack as it was. */
  lemma {:induction false} RunCallsRestore(stacks: map<string, seq<nat>>, t: string, cs: seq<Call>)
    requires t in stacks && stacks[t] != []
    ensures RunCalls(stacks, t, cs) == stacks
    decreases cs
  {
    if cs != [] {
      RunCallRestores(stacks, t, cs[0]);
      RunCallsRestore(stacks, t, cs[1..]);
    }
  }

  class MRIProfiler {
    var active: bool
    var triggerManagerOverhead: seq<StopWatch.DefaultStopWatch>
    /** `missingTriggers`: name to number of times missing. */
    var missingTriggers: seq<(string, nat)>
    ghost var missingLog: seq<string>
    /** `triggers`: trigger to number of invocations. */
    var triggers: seq<(TP.TriggerDef, nat)>
    ghost var triggerLog: seq<TP.TriggerDef>
    var executionNodeMap: map<NodeKey, seq<ExecutionNode>>
    var executionStackMap: map<string, seq<nat>>
    var rootExecutionNodes: set<nat>
    /** The tree nodes of every call tree. */
    const forest: Forest<ExecutionNode>

    /** The counters hold what was added since the last `clear`; the roots
        are root nodes; each thread's stack is a path down its call tree. */
    ghost predicate Valid()
      reads this, forest
    {
      forest.Valid()
      && missingTriggers == Tallies.Tally(missingLog, NameOf)
      && triggers == Tallies.Tally(triggerLog, TriggerId)
      && RootsValid(forest.nodes, rootExecutionNodes)
      && StacksValid(forest.nodes, executionStackMap, rootExecutionNodes)
    }

    /** The singleton: profiling off and nothing recorded. */
    constructor ()
      ensures Valid() && !active
      ensures triggerManagerOverhead == [] && missingTriggers == [] && triggers == []
      ensures executionNodeMap == map[] && executionStackMap == map[] && rootExecutionNodes == {}
    {
      active := false;
      triggerManagerOverhead := [];
      missingTriggers, missingLog := [], [];
      triggers, triggerLog := [], [];
      executionNodeMap := map[];
      executionStackMap := map[];
      rootExecutionNodes := {};
      forest := new Forest();
    }

    /** `addTriggerManagerInstance`: a new stopped stopwatch, appended to
        the overhead list and returned. */
    method AddTriggerManagerInstance() returns (stopWatch: StopWatch.DefaultStopWatch)
      requires Valid()
      modifies this
      ensures Valid() && fresh(stopWatch) && stopWatch.Valid() && stopWatch.history == [] && !stopWatch.isStarted
      ensures triggerManagerOverhead == old(triggerManagerOverhead) + [stopWatch]
      ensures missingTriggers == old(missingTriggers) && triggers == old(triggers)
        && missingLog == old(missingLog) && triggerLog == old(triggerLog) && active == old(active)
      ensures executionNodeMap == old(executionNodeMap) && executionStackMap == old(executionStackMap)
      ensures rootExecutionNodes == old(rootExecutionNodes)
    {
      stopWatch := new StopWatch.DefaultStopWatch();
      triggerManagerOverhead := triggerManagerOverhead + [stopWatch];
    }

    /** `push`: the node is listed under its key and pushed on its thread's
        stack as the last child of the node on top; the thread's first push
        first creates its ROOT node and stack. The node's stopwatch is
        returned. Peeking at an empty stack, left by popping the root,
        throws an EmptyStackException after the node was listed. */
    method Push(node: ExecutionNode) returns (r: Result<StopWatch.DefaultStopWatch>)
      requires Valid()
      modifies this, forest
      ensures Valid()
      ensures executionNodeMap == old(executionNodeMap)[node.Key() := Listed(old(executionNodeMap), node.Key()) + [node]]
      ensures active == old(active) && triggerManagerOverhead == old(triggerManagerOverhead)
      ensures missingTriggers == old(missingTriggers) && triggers == old(triggers)
        && missingLog == old(missingLog) && triggerLog == old(triggerLog)
      ensures executionStackMap == StacksAfterPush(old(executionStackMap), node.threadId, |old(forest.nodes)|)
      ensures var t, n := node.threadId, |old(forest.nodes)|;
        if t !in old(executionStackMap) then
          r == Ok(node.stopWatch) && |forest.nodes| == n + 2
          && fresh(forest.nodes[n].obj) && IsThreadRoot(forest.nodes[n].obj, t)
          && forest.nodes == AddChild(old(forest.nodes) + [TreeNode(None, [], forest.nodes[n].obj)], n, node)
          && Level(forest.nodes, n + 1) == 1
          && rootExecutionNodes == old(rootExecutionNodes) + {n}
        else if old(executionStackMap)[t] == [] then
          r == Err(EmptyStack) && forest.nodes == old(forest.nodes)
          && rootExecutionNodes == old(rootExecutionNodes)
        else
          var stack := old(executionStackMap)[t];
          r == Ok(node.stopWatch)
          && forest.nodes == AddChild(old(forest.nodes), stack[|stack| - 1], node)
          && Level(forest.nodes, n) == |stack|
          && rootExecutionNodes == old(rootExecutionNodes)
    {
      AddNodeToList(node);
      var o := AddNodeToStack(node);
      if o.Thrown? {
        return Err(o.error);
      }
      return Ok(node.stopWatch);
    }

    /** `addNodeToList`: the node goes at the end of the list for its key,
        which is created empty first if the key is new. */
    method AddNodeToList(node: ExecutionNode)
      requires Valid()
      modifies this
      ensures Valid()
      ensures executionNodeMap == old(executionNodeMap)[node.Key() := Listed(old(executionNodeMap), node.Key()) + [node]]
      ensures executionStackMap == old(executionStackMap) && rootExecutionNodes == old(rootExecutionNodes)
      ensures active == old(active) && triggerManagerOverhead == old(triggerManagerOverhead)
      ensures missingTriggers == old(missingTriggers) && triggers == old(triggers)
        && missingLog == old(missingLog) && triggerLog == old(triggerLog)
    {
      var executionNodes := if node.Key() in executionNodeMap then executionNodeMap[node.Key()] else [];
      executionNodeMap := executionNodeMap[node.Key() := executionNodes + [node]];
    }

    /** `addNodeToStack`: pushes a new tree node under the top of the
        thread's stack, creating the stack first if the thread has none. */
    method AddNodeToStack(node: ExecutionNode) returns (o: Outcome)
      requires Valid()
      modifies this, forest
      ensures Valid()
      ensures executionNodeMap == old(executionNodeMap)
      ensures active == old(active) && triggerManagerOverhead == old(triggerManagerOverhead)
      ensures missingTriggers == old(missingTriggers) && triggers == old(triggers)
        && missingLog == old(missingLog) && triggerLog == old(triggerLog)
      ensures executionStackMap == StacksAfterPush(old(executionStackMap), node.threadId, |old(forest.nodes)|)
      ensures var t, n := node.threadId, |old(forest.nodes)|;
        if t !in old(executionStackMap) then
          o == Done && |forest.nodes| == n + 2
          && fresh(forest.nodes[n].obj) && IsThreadRoot(forest.nodes[n].obj, t)
          && forest.nodes == AddChild(old(forest.nodes) + [TreeNode(None, [], forest.nodes[n].obj)], n, node)
          && Level(forest.nodes, n + 1) == 1
          && rootExecutionNodes == old(rootExecutionNodes) + {n}
        else if old(executionStackMap)[t] == [] then
          o == Thrown(EmptyStack) && forest.nodes == old(forest.nodes)
          && rootExecutionNodes == old(rootExecutionNodes)
        else
          var stack := old(executionStackMap)[t];
          o == Done
          && forest.nodes == AddChild(old(forest.nodes), stack[|stack| - 1], node)
          && Level(forest.nodes, n) == |stack|
          && rootExecutionNodes == old(rootExecutionNodes)
    {
      var t := node.threadId;
      var executionStack;
      if t in executionStackMap {
        executionStack := executionStackMap[t];
        assert Chain(forest.nodes, executionStack, rootExecutionNodes);
      } else {
        executionStack := GetNewExecutionStack(t);
        assert executionStack + [executionStack[0] + 1] == [executionStack[0], executionStack[0] + 1];
      }
      o := PushChild(t, executionStack, node);
    }

    /** The part of `addNodeToStack` after the thread's stack is found:
        `peek`, then a new tree node under the top, pushed, and the stack
        stored for the thread. */
    method PushChild(t: string, executionStack: seq<nat>, node: ExecutionNode) returns (o: Outcome)
      requires Valid() && Chain(forest.nodes, executionStack, rootExecutionNodes)
      requires executionStack == [] ==> t in executionStackMap && executionStackMap[t] == []
      modifies this, forest
      ensures Valid()
      ensures executionNodeMap == old(executionNodeMap) && rootExecutionNodes == old(rootExecutionNodes)
      ensures active == old(active) && triggerManagerOverhead == old(triggerManagerOverhead)
      ensures missingTriggers == old(missingTriggers) && triggers == old(triggers)
        && missingLog == old(missingLog) && triggerLog == old(triggerLog)
      ensures if executionStack == [] then
          o == Thrown(EmptyStack) && forest.nodes == old(forest.nodes) && executionStackMap == old(executionStackMap)
        else
          o == Done
          && forest.nodes == AddChild(old(forest.nodes), executionStack[|executionStack| - 1], node)
          && executionStackMap == old(executionStackMap)[t := executionStack + [|old(forest.nodes)|]]
          && Level(forest.nodes, |old(forest.nodes)|) == |executionStack|
    {
      if executionStack == [] {
        return Thrown(EmptyStack);
      }
      ghost var before := forest.nodes;
      var parent := executionStack[|executionStack| - 1];
      var child := forest.NewChild(parent, node);
      PushedChild(before, forest.nodes, executionStackMap, rootExecutionNodes, t, executionStack, node);
      executionStackMap := executionStackMap[t := executionStack + [child]];
      o := Done;
    }

    /** `getNewExecutionStack`: a new ROOT node for thread `t`, recorded
        among the roots; the stack holds just that node. */
    method GetNewExecutionStack(t: string) returns (executionStack: seq<nat>)
      requires Valid() && t !in executionStackMap
      modifies this, forest
      ensures Valid()
      ensures var n := |old(forest.nodes)|;
        executionStack == [n] && |forest.nodes| == n + 1 && Chain(forest.nodes, executionStack, rootExecutionNodes)
        && fresh(forest.nodes[n].obj) && IsThreadRoot(forest.nodes[n].obj, t)
        && forest.nodes == old(forest.nodes) + [TreeNode(None, [], forest.nodes[n].obj)]
        && rootExecutionNodes == old(rootExecutionNodes) + {n}
      ensures executionNodeMap == old(executionNodeMap) && executionStackMap == old(executionStackMap)
      ensures active == old(active) && triggerManagerOverhead == old(triggerManagerOverhead)
      ensures missingTriggers == old(missingTriggers) && triggers == old(triggers)
        && missingLog == old(missingLog) && triggerLog == old(triggerLog)
    {
      var nullExecutionNode := new ExecutionNode(ROOT, Some("Root"), None, None, t);
      ghost var before := forest.nodes;
      var root := forest.NewRoot(nullExecutionNode);
      assert ParentsKept(before, forest.nodes);
      StacksKept(before, forest.nodes, executionStackMap, rootExecutionNodes, rootExecutionNodes + {root});
      rootExecutionNodes := rootExecutionNodes + {root};
      executionStack := [root];
    }

    /** `pop` for the calling thread `t`: removes the top of its stack; with
        no stack or an empty one, an IllegalStateException and no change. */
    method Pop(t: string) returns (o: Outcome)
      requires Valid()
      modifies this
      ensures Valid()
      ensures o == if t in old(executionStackMap) && old(executionStackMap)[t] != [] then Done else Thrown(IllegalState)
      ensures executionStackMap == StacksAfterPop(old(executionStackMap), t)
      ensures executionNodeMap == old(executionNodeMap) && rootExecutionNodes == old(rootExecutionNodes)
      ensures active == old(active) && triggerManagerOverhead == old(triggerManagerOverhead)
      ensures missingTriggers == old(missingTriggers) && triggers == old(triggers)
        && missingLog == old(missingLog) && triggerLog == old(triggerLog)
    {
      if t !in executionStackMap || executionStackMap[t] == [] {
        return Thrown(IllegalState);
      }
      var executionStack := executionStackMap[t];
      StacksPop(forest.nodes, executionStackMap, rootExecutionNodes, t);
      executionStackMap := executionStackMap[t := executionStack[..|executionStack| - 1]];
      o := Done;
    }

    /** `isJavaTrigger` for the calling thread `t`: with at least two nodes
        on its stack, the test on the top node and on its tree parent, which
        is the node below it on the stack; otherwise false. */
    method IsJavaTrigger(t: string) returns (r: Result<bool>)
      requires Valid()
      ensures t !in executionStackMap || |executionStackMap[t]| <= 1 ==> r == Ok(false)
      ensures t in executionStackMap && |executionStackMap[t]| > 1 ==>
        var stack := executionStackMap[t];
        var top, below := forest.nodes[stack[|stack| - 1]].obj, forest.nodes[stack[|stack| - 2]].obj;
        r == JavaTriggerTest(top.name, top.methodName, below.nodeType, below.methodName)
    {
      if t !in executionStackMap || |executionStackMap[t]| <= 1 {
        return Ok(false);
      }
      var executionStack := executionStackMap[t];
      assert Chain(forest.nodes, executionStack, rootExecutionNodes);
      var parent := forest.nodes[executionStack[|executionStack| - 1]];
      assert parent.parent == Some(executionStack[|executionStack| - 2]);
      var grandParent := forest.nodes[parent.parent.value];
      r := JavaTriggerTest(parent.obj.name, parent.obj.methodName, grandParent.obj.nodeType, grandParent.obj.methodName);
    }

    /** `getRootExecutionNodes`: the root of every thread's call tree. */
    method GetRootExecutionNodes() returns (roots: set<nat>)
      requires Valid()
      ensures roots == rootExecutionNodes
      ensures forall x :: x in roots ==> x < |forest.nodes| && Level(forest.nodes, x) == 0
    {
      roots := rootExecutionNodes;
    }

    /** `getExecutionNodeMap`: the nodes listed by key. */
    method GetExecutionNodeMap() returns (m: map<NodeKey, seq<ExecutionNode>>)
      ensures m == executionNodeMap
    {
      m := executionNodeMap;
    }

    method SetActive(active: bool)
      modifies this
      ensures this.active == active
      ensures triggerManagerOverhead == old(triggerManagerOverhead) && missingTriggers == old(missingTriggers)
      ensures missingLog == old(missingLog) && triggers == old(triggers) && triggerLog == old(triggerLog)
      ensures executionNodeMap == old(executionNodeMap) && executionStackMap == old(executionStackMap)
      ensures rootExecutionNodes == old(rootExecutionNodes)
    {
      this.active := active;
    }

    method IsActive() returns (r: bool)
      ensures r == active
    {
      r := active;
    }

    /** `clear`: every record is emptied; whether profiling is on is kept. */
    method Clear()
      requires Valid()
      modifies this
      ensures Valid() && active == old(active)
      ensures triggerManagerOverhead == [] && missingTriggers == [] && triggers == []
      ensures executionNodeMap == map[] && executionStackMap == map[] && rootExecutionNodes == {}
    {
      triggerManagerOverhead := [];
      executionNodeMap := map[];
      executionStackMap := map[];
      missingTriggers, missingLog := [], [];
      rootExecutionNodes := {};
      triggers, triggerLog := [], [];
    }

    /** `getTriggerManagerOverhead`: the stopwatches in the order added. */
    method GetTriggerManagerOverhead() returns (list: seq<StopWatch.DefaultStopWatch>)
      ensures list == triggerManagerOverhead
    {
      list := triggerManagerOverhead;
    }

    /** `addMissingTrigger`: the name's count goes up by one, from 0 if it
        was never added; no other count changes. */
    method AddMissingTrigger(name: string)
      requires Valid()
      modifies this
      ensures Valid() && missingLog == old(missingLog) + [name]
      ensures triggerLog == old(triggerLog)
      ensures forall k ::
                Tallies.Count(missingTriggers, k, NameOf) == Tallies.Count(old(missingTriggers), k, NameOf) + (if k == name then 1 else 0)
      ensures triggers == old(triggers) && active == old(active) && triggerManagerOverhead == old(triggerManagerOverhead)
      ensures executionNodeMap == old(executionNodeMap) && executionStackMap == old(executionStackMap)
      ensures rootExecutionNodes == old(rootExecutionNodes)
    {
      forall k ensures Tallies.Count(Tallies.Bump(missingTriggers, name, NameOf), k, NameOf) ==
        Tallies.Count(missingTriggers, k, NameOf) + (if k == name then 1 else 0)
      {
        Tallies.BumpCounts(missingTriggers, name, NameOf, k);
      }
      missingTriggers := Tallies.Bump(missingTriggers, name, NameOf);
      missingLog := missingLog + [name];
      assert missingLog[..|missingLog| - 1] == old(missingLog);
    }

    /** `getMissingTriggers`: the names in `compareTo` order, each with the
        number of times it was added since the last `clear`. */
    method GetMissingTriggers() returns (sorted: seq<(string, nat)>)
      requires Valid()
      ensures TreeMaps.Ascending(sorted, JavaStrings.CompareTo)
      ensures forall k :: TreeMaps.Get(sorted, k, JavaStrings.CompareTo) == MissingCount(missingLog, k)
    {
      sorted := TreeMaps.Copy(missingTriggers, JavaStrings.CompareTo);
      StringsTotallyOrdered();
      TreeMaps.CopyAscending(missingTriggers, JavaStrings.CompareTo);
      forall k ensures TreeMaps.Get(sorted, k, JavaStrings.CompareTo) == MissingCount(missingLog, k) {
        CopiedTallyCounts(missingLog, k);
      }
    }

    /** `addTrigger`: the count of the trigger, or of the first trigger
        added that equals it, goes up by one; no other count changes. */
    method AddTrigger(trigger: TP.TriggerDef)
      requires Valid()
      modifies this
      ensures Valid() && triggerLog == old(triggerLog) + [trigger]
      ensures missingLog == old(missingLog)
      ensures forall k ::
                Tallies.Count(triggers, k, TriggerId) == Tallies.Count(old(triggers), k, TriggerId) + (if k == TriggerId(trigger) then 1 else 0)
      ensures missingTriggers == old(missingTriggers) && active == old(active)
      ensures triggerManagerOverhead == old(triggerManagerOverhead)
      ensures executionNodeMap == old(executionNodeMap) && executionStackMap == old(executionStackMap)
      ensures rootExecutionNodes == old(rootExecutionNodes)
    {
      forall k ensures Tallies.Count(Tallies.Bump(triggers, trigger, TriggerId), k, TriggerId) ==
        Tallies.Count(triggers, k, TriggerId) + (if k == TriggerId(trigger) then 1 else 0)
      {
        Tallies.BumpCounts(triggers, trigger, TriggerId, k);
      }
      triggers := Tallies.Bump(triggers, trigger, TriggerId);
      triggerLog := triggerLog + [trigger];
      assert triggerLog[..|triggerLog| - 1] == old(triggerLog);
    }

    /** `getTriggers`, with the revision breaking ties: every trigger and its
        count, none lost to another of the same name and sequence number. */
    method GetTriggers() returns (sorted: seq<(TP.TriggerDef, nat)>)
      requires Valid()
      ensures multiset(sorted) == multiset(triggers)
      ensures forall k :: Tallies.Occurrences(triggerLog, k, TriggerId) > 0 ==>
        exists i :: 0 <= i < |sorted| && TriggerId(sorted[i].0) == k && sorted[i].1 == Tallies.Occurrences(triggerLog, k, TriggerId)
    {
      sorted := TreeMaps.Copy(triggers, CompareWithRevision);
      Tallies.TallyDistinct(triggerLog, TriggerId);
      TriggersCopyKeepsAll(triggers);
      forall k | Tallies.Occurrences(triggerLog, k, TriggerId) > 0
        ensures exists i :: 0 <= i < |sorted| && TriggerId(sorted[i].0) == k && sorted[i].1 == Tallies.Occurrences(triggerLog, k, TriggerId)
      {
        Tallies.TallyCounts(triggerLog, TriggerId, k);
        var j := Tallies.Find(triggers, k, TriggerId);
        assert triggers[j] in multiset(sorted);
        var i :| 0 <= i < |sorted| && sorted[i] == triggers[j];
      }
    }
  }
}
