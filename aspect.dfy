// The advice of MRIAspect: how an intercepted call becomes a timed node in
// the profiler's call trees, how trigger-manager instantiations are timed,
// how the trigger manager's triggers are registered, and the helpers that
// pull names out of class names, signatures and MQL commands.
//
// The join point is taken apart into parameters: the declaring type name,
// the signature text, the argument values (as strings), the calling
// thread's id, the times at which the advised call starts and returns, and
// the outcome of the advised call itself (`call`).

module Aspect {
  import opened Wrappers
  import opened JavaStrings
  import StopWatch
  import opened ExecutionNodes
  import opened Trees
  import opened Profiler
  import TP = TriggerParameters
  import TC = TriggerCache

  const JpoTriggerManager := "emxTriggerManager"
  const MxMain := "mxMain"
  const TclTriggerWrapper := "execute program emxTriggerWrapper.tcl "
  /** The package prefix whose length `getJSPName` cuts off. */
  const JspPackage := "org.apache.jsp"
  const JpoSuffix := "_mxJPO"

  /* ---------- getTCLProgramName ---------- */

  /** No single quote in `s`. */
  predicate Unquoted(s: string)
  {
    forall k :: 0 <= k < |s| ==> s[k] != '\''
  }

  /** `command` holds at least two single quotes. */
  predicate TwoQuotes(command: string)
  {
    exists i, j :: 0 <= i < j < |command| && command[i] == '\'' && command[j] == '\''
  }

  /** `name` starts at `k` in `command`: a single quote and the text up to
      the next quote, which is the last quote of the command. */
  predicate LastQuotedAt(command: string, name: string, k: nat)
  {
    |name| > 0 && name[0] == '\'' && Unquoted(name[1..])
    && k + |name| < |command| && command[k..k + |name|] == name
    && command[k + |name|] == '\'' && Unquoted(command[k + |name| + 1..])
  }

  /** The program name of a TCL trigger command: the last single-quoted
      value, with its opening quote kept. With fewer than two quotes the
      StringBuilder `delete` is given a negative index and throws a
      StringIndexOutOfBoundsException. */
  function TclProgramName(command: string): (r: Result<string>)
    ensures r.Err? <==> !TwoQuotes(command)
    ensures r.Err? ==> r.error == IndexOutOfBounds
    ensures r.Ok? ==> exists k :: LastQuotedAt(command, r.value, k)
  {
    var last := LastIndexOfChar(command, '\'');
    if last < 0 then
      Err(IndexOutOfBounds)
    else
      var first := LastIndexOfChar(command[..last], '\'');
      if first < 0 then
        assert !TwoQuotes(command) by { OneQuote(command, last); }
        Err(IndexOutOfBounds)
      else
        assert command[first] == '\'' && command[last] == '\'';
        assert LastQuotedAt(command, command[first..last], first) by {
          assert command[first..last][1..] == command[first + 1..last];
        }
        Ok(command[first..last])
  }

  /** With no quote before `last` and none after it, the command has fewer
      than two quotes. */
  lemma OneQuote(command: string, last: int)
    requires 0 <= last < |command|
    requires forall k :: last < k < |command| ==> command[k] != '\''
    requires forall k :: 0 <= k < last ==> command[..last][k] != '\''
    ensures !TwoQuotes(command)
  {
    forall k | 0 <= k < last
      ensures command[k] != '\''
    {
      assert command[..last][k] == command[k];
    }
  }

  /** A command has at most one program name: the closing quote is the
      last quote, and the opening quote the last one before it. */
  lemma LastQuotedUnique(command: string, a: string, k: nat, b: string, m: nat)
    requires LastQuotedAt(command, a, k) && LastQuotedAt(command, b, m)
    ensures a == b && k == m
  {
  }

  /** A command ending in `'name'` followed by quote-free text names the
      program `'name`. */
  lemma TclProgramNameOfCommand(front: string, name: string, rest: string)
    requires Unquoted(name) && Unquoted(rest)
    ensures TclProgramName(front + "'" + name + "'" + rest) == Ok("'" + name)
  {
    var command := front + "'" + name + "'" + rest;
    var quoted := "'" + name;
    assert command[|front|..|front| + |quoted|] == quoted;
    assert command[|front| + |quoted| + 1..] == rest;
    assert quoted[1..] == name;
    assert LastQuotedAt(command, quoted, |front|);
    assert command[|front|] == '\'' && command[|front| + |quoted|] == '\'';
    var r := TclProgramName(command);
    var k :| LastQuotedAt(command, r.value, k);
    LastQuotedUnique(command, r.value, k, quoted, |front|);
  }

  /** `getTCLProgramName` on its StringBuilder: cut at the last quote, then
      drop everything before the last remaining quote. */
  method GetTCLProgramName(command: string) returns (r: Result<string>)
    ensures r == TclProgramName(command)
  {
    var programName := command;
    var lastQuoteIndex := LastIndexOfChar(programName, '\'');
    if lastQuoteIndex < 0 {
      return Err(IndexOutOfBounds);
    }
    programName := programName[..lastQuoteIndex];
    lastQuoteIndex := LastIndexOfChar(programName, '\'');
    if lastQuoteIndex < 0 {
      return Err(IndexOutOfBounds);
    }
    programName := programName[lastQuoteIndex..];
    r := Ok(programName);
  }

  /* ---------- getJSPName ---------- */

  /** A dot of the class name as it appears in the page path. */
  function Slashed(c: char): char
  {
    if c == '.' then '/' else c
  }

  /** The page of a compiled JSP class: dots become slashes, as many
      characters as the package prefix has are cut off the front, and the
      fourth character from the end (the `_` of `_jsp`) becomes a dot. A
      name shorter than the prefix and four more characters leaves no such
      character, and `setCharAt` throws. */
  function JspName(className: string): (r: Result<string>)
    ensures r.Err? <==> |className| < |JspPackage| + 4
    ensures r.Err? ==> r.error == IndexOutOfBounds
    ensures r.Ok? ==>
      |r.value| == |className| - |JspPackage| && r.value[|r.value| - 4] == '.'
      && forall i :: 0 <= i < |r.value| && i != |r.value| - 4 ==> r.value[i] == Slashed(className[|JspPackage| + i])
  {
    var slashed := ReplaceChar(className, '.', '/');
    var cut := if |slashed| < |JspPackage| then [] else slashed[|JspPackage|..];
    if |cut| < 4 then Err(IndexOutOfBounds) else Ok(cut[|cut| - 4 := '.'])
  }

  /** The class `org.apache.jsp.<path>_jsp` is the page `/<path>.jsp`,
      with the dots of the path turned into slashes: the class
      `org.apache.jsp.a.b_jsp` is the page `/a/b.jsp`. */
  lemma JspNameOfPage(path: string)
    ensures JspName(JspPackage + "." + path + "_jsp") == Ok("/" + ReplaceChar(path, '.', '/') + ".jsp")
  {
    var tail := "." + path + "_jsp";
    var className := JspPackage + tail;
    assert className == JspPackage + "." + path + "_jsp";
    var slashedPath := ReplaceChar(path, '.', '/');
    var page := "/" + slashedPath + ".jsp";
    var r := JspName(className);
    forall i | 0 <= i < |page|
      ensures r.value[i] == page[i]
    {
      if i != |page| - 4 {
        assert r.value[i] == Slashed(tail[i]) by {
          assert className[|JspPackage| + i] == tail[i];
        }
        if 1 <= i <= |path| {
          assert tail[i] == path[i - 1] && page[i] == slashedPath[i - 1];
        } else if i > |path| {
          assert tail[i] == "_jsp"[i - |path| - 1] && page[i] == ".jsp"[i - |path| - 1];
        }
      }
    }
    assert r.value == page;
  }

  /** `getJSPName` on its StringBuilder. `delete(0, 14)` clamps its end to
      the length. */
  method GetJSPName(jspClassName: string) returns (r: Result<string>)
    ensures r == JspName(jspClassName)
  {
    var jspName := ReplaceChar(jspClassName, '.', '/');
    jspName := if |jspName| < |JspPackage| then [] else jspName[|JspPackage|..];
    if |jspName| - 4 < 0 {
      return Err(IndexOutOfBounds);
    }
    jspName := jspName[|jspName| - 4 := '.'];
    r := Ok(jspName);
  }

  /* ---------- getMethod and getJPOName ---------- */

  /** The method part of a signature: what follows the first space (the end
      of the return type), less the declaring type's name and one more
      character (the dot); the StringBuilder clamps both cuts to the
      length. Without a space nothing is cut for the return type. */
  function MethodName(typeName: string, signature: string): (r: string)
    ensures |r| <= |signature| && r == signature[|signature| - |r|..]
    ensures |signature| - |r| <= IndexOfChar(signature, ' ') + 1 + |typeName| + 1
  {
    var afterReturnType := signature[IndexOfChar(signature, ' ') + 1..];
    if |afterReturnType| < |typeName| + 1 then [] else afterReturnType[|typeName| + 1..]
  }

  /** A signature `ret type.rest` with a return type free of spaces gives
      the method `rest`. */
  lemma MethodNameOfSignature(ret: string, typeName: string, rest: string)
    requires forall k :: 0 <= k < |ret| ==> ret[k] != ' '
    ensures MethodName(typeName, ret + " " + typeName + "." + rest) == rest
  {
    var signature := ret + " " + typeName + "." + rest;
    assert signature[|ret|] == ' ';
    assert forall k :: 0 <= k < |ret| ==> signature[k] == ret[k];
    assert IndexOfChar(signature, ' ') == |ret|;
    assert signature[|ret| + 1..][|typeName| + 1..] == rest;
  }

  /** `getMethod` on its StringBuilder. */
  method GetMethod(typeName: string, signature: string) returns (r: string)
    ensures r == MethodName(typeName, signature)
  {
    var buffer := signature;
    var end := IndexOfChar(buffer, ' ') + 1;
    buffer := buffer[end..];
    end := if |typeName| + 1 < |buffer| then |typeName| + 1 else |buffer|;
    buffer := buffer[end..];
    r := buffer;
  }

  /** `getJPOName`: the part of the declaring type's name before the first
      `_mxJPO`; without one, `substring(0, -1)` throws. */
  function GetJPOName(longName: string): (r: Result<string>)
    ensures r.Err? <==> forall k :: 0 <= k ==> !OccursAt(longName, JpoSuffix, k)
    ensures r.Err? ==> r.error == IndexOutOfBounds
    ensures r.Ok? ==>
      OccursAt(longName, JpoSuffix, |r.value|) && longName[..|r.value|] == r.value
      && forall k :: 0 <= k < |r.value| ==> !OccursAt(longName, JpoSuffix, k)
  {
    var i := IndexOf(longName, JpoSuffix);
    IndexOfFirst(longName, JpoSuffix);
    if i < 0 then Err(IndexOutOfBounds) else Ok(longName[..i])
  }

  /** A program name without underscores is recovered from its JPO class
      name `name_mxJPO...`. */
  lemma JPONameOfClass(name: string, rest: string)
    requires forall k :: 0 <= k < |name| ==> name[k] != '_'
    ensures GetJPOName(name + JpoSuffix + rest) == Ok(name)
  {
    var longName := name + JpoSuffix + rest;
    assert OccursAt(longName, JpoSuffix, |name|) by {
      assert longName[|name|..|name| + |JpoSuffix|] == JpoSuffix;
    }
    forall k | 0 <= k < |name|
      ensures !OccursAt(longName, JpoSuffix, k)
    {
      assert longName[k] == name[k];
      assert JpoSuffix[0] == '_';
    }
    assert longName[..|name|] == name;
  }

  /* ---------- jpo_method's classification ---------- */

  /** The node type `jpo_method` gives a call of JPO `name`, given the answer
      `isJavaTrigger` would give: the trigger manager first; then, asking
      the profiler, a Java trigger; otherwise a plain JPO. */
  function JpoNodeType(name: string, javaTrigger: Result<bool>): (r: Result<NodeType>)
    ensures r == Ok(TRIGGER_MANAGER) <==> StartsWith(name, JpoTriggerManager)
    ensures r == Ok(JAVA_TRIGGER) <==> !StartsWith(name, JpoTriggerManager) && javaTrigger == Ok(true)
    ensures r == Ok(JPO) <==> !StartsWith(name, JpoTriggerManager) && javaTrigger == Ok(false)
    ensures r.Err? <==> !StartsWith(name, JpoTriggerManager) && javaTrigger.Err?
    ensures r.Err? ==> r.error == javaTrigger.error
  {
    if StartsWith(name, JpoTriggerManager) then Ok(TRIGGER_MANAGER)
    else if javaTrigger.Err? then Err(javaTrigger.error)
    else if javaTrigger.value then Ok(JAVA_TRIGGER)
    else Ok(JPO)
  }

  /** The trigger manager's `mxMain` entry point registers its triggers. */
  predicate RegistersTriggers(name: string, methodName: string)
  {
    StartsWith(name, JpoTriggerManager) && StartsWith(methodName, MxMain)
  }

  /** What `isJavaTrigger` answers on thread `t` in the profiler's present
      state: the test on the two nodes on top of the thread's stack. */
  ghost function JavaTriggerAnswer(profiler: MRIProfiler, t: string): Result<bool>
    reads profiler, profiler.forest, set i | 0 <= i < |profiler.forest.nodes| :: profiler.forest.nodes[i].obj
  {
    var stacks, nodes := profiler.executionStackMap, profiler.forest.nodes;
    if t !in stacks || |stacks[t]| <= 1 then Ok(false)
    else
      var top, below := stacks[t][|stacks[t]| - 1], stacks[t][|stacks[t]| - 2];
      if top < |nodes| && below < |nodes| then
        JavaTriggerTest(nodes[top].obj.name, nodes[top].obj.methodName, nodes[below].obj.nodeType, nodes[below].obj.methodName)
      else Ok(false)
  }

  /* ---------- proceed ---------- */

  /** What `proceed` leaves behind for a new `node`: the node listed under
      its identity; then, unless the push found the thread's stack emptied
      (an EmptyStackException, nothing timed), the node as the last child
      of the node that was on top of the stack (of a new thread root for
      the thread's first call), its watch run once from `startAt` to
      `stopAt`, the stack as before (holding just the new root after a
      first call) and the advised call's outcome passed on. */
  twostate predicate Proceeded(profiler: MRIProfiler, new node: ExecutionNode, call: Outcome, startAt: int, stopAt: int, o: Outcome)
    reads profiler, profiler.forest, node, node.stopWatch
  {
    ProceededFrom(old(profiler.executionNodeMap), old(profiler.executionStackMap), old(profiler.forest.nodes),
                  profiler, node, call, startAt, stopAt, o)
  }

  /** `Proceeded`, from the call trees' state `nodeMap`, `stacks`, `before`
      before the call. */
  ghost predicate ProceededFrom(nodeMap: map<NodeKey, seq<ExecutionNode>>, stacks: map<string, seq<nat>>,
                          before: seq<TreeNode<ExecutionNode>>, profiler: MRIProfiler, node: ExecutionNode,
                          call: Outcome, startAt: int, stopAt: int, o: Outcome)
    reads profiler, profiler.forest, node, node.stopWatch
  {
    var t, nodes := node.threadId, profiler.forest.nodes;
    profiler.executionNodeMap == nodeMap[node.Key() := Listed(nodeMap, node.Key()) + [node]]
    && if t in stacks && stacks[t] == [] then
         o == Thrown(EmptyStack) && nodes == before && profiler.executionStackMap == stacks
         && node.stopWatch.history == []
       else
         o == call
         && node.stopWatch.history == [StopWatch.Start(startAt), StopWatch.Stop(stopAt)]
         && !node.stopWatch.isStarted && node.stopWatch.elapsedTime == stopAt - startAt
         && (t in stacks ==>
               stacks[t][|stacks[t]| - 1] < |before| && nodes == AddChild(before, stacks[t][|stacks[t]| - 1], node) && profiler.executionStackMap == stacks)
         && (t !in stacks ==>
               |nodes| == |before| + 2 && nodes == AddChild(before + [TreeNode(None, [], nodes[|before|].obj)], |before|, node)
               && profiler.executionStackMap == stacks[t := [|before|]])
  }

  /** The profiler's counters, overhead list and flag are as they were. */
  twostate predicate CountsKept(profiler: MRIProfiler)
    reads profiler
  {
    profiler.active == old(profiler.active) && profiler.triggerManagerOverhead == old(profiler.triggerManagerOverhead)
    && profiler.missingTriggers == old(profiler.missingTriggers) && profiler.missingLog == old(profiler.missingLog)
    && profiler.triggers == old(profiler.triggers) && profiler.triggerLog == old(profiler.triggerLog)
  }

  /** Nothing is recorded in the call trees. */
  twostate predicate TreesKept(profiler: MRIProfiler)
    reads profiler, profiler.forest, set i | 0 <= i < |profiler.forest.nodes| :: profiler.forest.nodes[i].obj
  {
    profiler.executionNodeMap == old(profiler.executionNodeMap) && profiler.executionStackMap == old(profiler.executionStackMap)
    && profiler.forest.nodes == old(profiler.forest.nodes) && profiler.rootExecutionNodes == old(profiler.rootExecutionNodes)
  }

  /** `proceed`: push the node and start its watch; run the advised call;
      then, however it ends, stop the watch and pop. */
  method Proceed(profiler: MRIProfiler, node: ExecutionNode, call: Outcome, startAt: int, stopAt: int) returns (o: Outcome)
    requires profiler.Valid() && node.stopWatch.Valid() && node.stopWatch.history == []
    modifies profiler, profiler.forest, node.stopWatch
    ensures profiler.Valid() && CountsKept(profiler)
    ensures Proceeded(profiler, node, call, startAt, stopAt, o)
  {
    var t, stacks, n := node.threadId, profiler.executionStackMap, |profiler.forest.nodes|;
    var pushed := profiler.Push(node);
    if pushed.Err? {
      return Thrown(pushed.error);
    }
    var stopWatch := pushed.value;
    stopWatch.Start(startAt);
    stopWatch.Stop(stopAt);
    var popped := profiler.Pop(t);
    PopUndoesPush(stacks, t, n);
    o := if popped.Thrown? then popped else call;
  }

  /* ---------- the advice ---------- */

  /** `getExecutionNode`: a node of the given type named after the declaring
      type, with the method from the signature and the argument values. */
  method GetExecutionNode(nodeType: NodeType, typeName: string, signature: string, args: seq<string>, t: string)
    returns (node: ExecutionNode)
    ensures fresh(node) && fresh(node.stopWatch) && node.stopWatch.Valid() && !node.stopWatch.isStarted
    ensures node.Key() == NodeKey(nodeType, Some(typeName), Some(MethodName(typeName, signature)))
    ensures node.parameters == Some(args) && node.threadId == t && node.stopWatch.history == []
  {
    var methodName := GetMethod(typeName, signature);
    node := new ExecutionNode(nodeType, Some(typeName), Some(methodName), Some(args), t);
  }

  /** `mxAPI`: a Matrix API call is timed as an MX_API node. */
  method MxAPI(profiler: MRIProfiler, typeName: string, signature: string, args: seq<string>, t: string,
               call: Outcome, startAt: int, stopAt: int) returns (o: Outcome, ghost node: ExecutionNode)
    requires profiler.Valid()
    modifies profiler, profiler.forest
    ensures profiler.Valid() && CountsKept(profiler)
    ensures fresh(node) && node.threadId == t && node.parameters == Some(args)
    ensures node.Key() == NodeKey(MX_API, Some(typeName), Some(MethodName(typeName, signature)))
    ensures Proceeded(profiler, node, call, startAt, stopAt, o)
  {
    var executionNode := GetExecutionNode(MX_API, typeName, signature, args, t);
    o := Proceed(profiler, executionNode, call, startAt, stopAt);
    node := executionNode;
  }

  /** `lgeAPI`: an LG CNS API call is timed as an LG_CNS_API node. */
  method LgeAPI(profiler: MRIProfiler, typeName: string, signature: string, args: seq<string>, t: string,
                call: Outcome, startAt: int, stopAt: int) returns (o: Outcome, ghost node: ExecutionNode)
    requires profiler.Valid()
    modifies profiler, profiler.forest
    ensures profiler.Valid() && CountsKept(profiler)
    ensures fresh(node) && node.threadId == t && node.parameters == Some(args)
    ensures node.Key() == NodeKey(LG_CNS_API, Some(typeName), Some(MethodName(typeName, signature)))
    ensures Proceeded(profiler, node, call, startAt, stopAt, o)
  {
    var executionNode := GetExecutionNode(LG_CNS_API, typeName, signature, args, t);
    o := Proceed(profiler, executionNode, call, startAt, stopAt);
    node := executionNode;
  }

  /** `jpoSupport_newInstance`: instantiating the trigger manager adds one
      stopwatch to the overhead list and times the instantiation with it,
      however it ends; any other instantiation is not recorded. */
  method JpoSupportNewInstance(profiler: MRIProfiler, jpoName: string, call: Outcome, startAt: int, stopAt: int)
    returns (o: Outcome)
    requires profiler.Valid()
    modifies profiler
    ensures profiler.Valid() && o == call && TreesKept(profiler)
    ensures profiler.active == old(profiler.active)
    ensures profiler.missingTriggers == old(profiler.missingTriggers) && profiler.triggers == old(profiler.triggers)
    ensures !StartsWith(jpoName, JpoTriggerManager) ==> profiler.triggerManagerOverhead == old(profiler.triggerManagerOverhead)
    ensures StartsWith(jpoName, JpoTriggerManager) ==>
      var before := old(profiler.triggerManagerOverhead);
      |profiler.triggerManagerOverhead| == |before| + 1 && profiler.triggerManagerOverhead[..|before|] == before
      && var w := profiler.triggerManagerOverhead[|before|];
      fresh(w) && w.Valid() && !w.isStarted
      && w.history == [StopWatch.Start(startAt), StopWatch.Stop(stopAt)] && w.elapsedTime == stopAt - startAt
  {
    if StartsWith(jpoName, JpoTriggerManager) {
      var stopWatch := profiler.AddTriggerManagerInstance();
      stopWatch.Start(startAt);
      stopWatch.Stop(stopAt);
      o := call;
    } else {
      o := call;
    }
  }

  /** `triggerManager_mqlCommand`: an MQL command that runs the TCL trigger
      wrapper is timed as a TCL_TRIGGER node named after the program, with
      method "-" and no arguments; a command without a program name throws
      before anything is recorded; every other command, a null one
      included, runs unrecorded. */
  method TriggerManagerMqlCommand(profiler: MRIProfiler, command: Option<string>, t: string,
                                  call: Outcome, startAt: int, stopAt: int)
    returns (o: Outcome, ghost node: Option<ExecutionNode>)
    requires profiler.Valid()
    modifies profiler, profiler.forest
    ensures profiler.Valid() && CountsKept(profiler)
    ensures !(command.Some? && StartsWith(command.value, TclTriggerWrapper)) ==>
      o == call && node.None? && TreesKept(profiler)
    ensures command.Some? && StartsWith(command.value, TclTriggerWrapper) && TclProgramName(command.value).Err? ==>
      o == Thrown(IndexOutOfBounds) && node.None? && TreesKept(profiler)
    ensures node.Some? <==> command.Some? && StartsWith(command.value, TclTriggerWrapper) && TclProgramName(command.value).Ok?
    ensures node.Some? ==>
      fresh(node.value) && node.value.threadId == t && node.value.parameters.None?
      && node.value.Key() == NodeKey(TCL_TRIGGER, Some(TclProgramName(command.value).value), Some("-"))
      && Proceeded(profiler, node.value, call, startAt, stopAt, o)
  {
    if command.Some? && StartsWith(command.value, TclTriggerWrapper) {
      var programName := GetTCLProgramName(command.value);
      if programName.Err? {
        return Thrown(programName.error), None;
      }
      var executionNode := new ExecutionNode(TCL_TRIGGER, Some(programName.value), Some("-"), None, t);
      o := Proceed(profiler, executionNode, call, startAt, stopAt);
      node := Some(executionNode);
    } else {
      o, node := call, None;
    }
  }

  /** `jsp_service`: a page is timed as a JSP node named after the page, with
      method "jsp_service" and the argument values. */
  method JspService(profiler: MRIProfiler, jspClassName: string, args: seq<string>, t: string,
                    call: Outcome, startAt: int, stopAt: int)
    returns (o: Outcome, ghost node: Option<ExecutionNode>)
    requires profiler.Valid()
    modifies profiler, profiler.forest
    ensures profiler.Valid() && CountsKept(profiler)
    ensures node.None? <==> JspName(jspClassName).Err?
    ensures node.None? ==> o == Thrown(IndexOutOfBounds) && TreesKept(profiler)
    ensures node.Some? ==>
      fresh(node.value) && node.value.threadId == t && node.value.parameters == Some(args)
      && node.value.Key() == NodeKey(JSP, Some(JspName(jspClassName).value), Some("jsp_service"))
      && Proceeded(profiler, node.value, call, startAt, stopAt, o)
  {
    var jspName := GetJSPName(jspClassName);
    if jspName.Err? {
      return Thrown(jspName.error), None;
    }
    var executionNode := new ExecutionNode(JSP, Some(jspName.value), Some("jsp_service"), Some(args), t);
    o := Proceed(profiler, executionNode, call, startAt, stopAt);
    node := Some(executionNode);
  }

  /* ---------- registerTriggers ---------- */

  /** The names among `names` the cache holds no list for, in order, once
      for each time they are named. */
  function MissingNames(names: seq<string>, cache: map<string, seq<TP.TriggerDef>>): (r: seq<string>)
    ensures forall n :: n in r <==> n in names && n !in cache
  {
    if names == [] then []
    else
      var front, last := names[..|names| - 1], names[|names| - 1];
      assert names == front + [last];
      MissingNames(front, cache) + (if last in cache then [] else [last])
  }

  /** Every cached trigger of every name in `names` that the cache holds,
      name by name and in the cached order. */
  function CachedTriggers(names: seq<string>, cache: map<string, seq<TP.TriggerDef>>): (r: seq<TP.TriggerDef>)
    ensures forall n, d :: n in names && n in cache && d in cache[n] ==> d in r
    ensures forall d :: d in r ==> exists n :: n in names && n in cache && d in cache[n]
  {
    if names == [] then []
    else
      var front, last := names[..|names| - 1], names[|names| - 1];
      assert names == front + [last];
      CachedTriggers(front, cache) + (if last in cache then cache[last] else [])
  }

  /** A name is counted missing once for each time it is named uncached. */
  lemma {:induction false} MissingNamesCount(names: seq<string>, cache: map<string, seq<TP.TriggerDef>>, k: string)
    ensures Tallies.Occurrences(MissingNames(names, cache), k, NameOf) ==
      if k in cache then 0 else Tallies.Occurrences(names, k, NameOf)
  {
    if names != [] {
      var front, last := names[..|names| - 1], names[|names| - 1];
      MissingNamesCount(front, cache, k);
      var added := if last in cache then [] else [last];
      OccurrencesAppend(MissingNames(front, cache), added, k);
    }
  }

  lemma {:induction false} OccurrencesAppend(a: seq<string>, b: seq<string>, k: string)
    ensures Tallies.Occurrences(a + b, k, NameOf) == Tallies.Occurrences(a, k, NameOf) + Tallies.Occurrences(b, k, NameOf)
  {
    if b != [] {
      var ab, front := a + b, b[..|b| - 1];
      assert ab[..|ab| - 1] == a + front && ab[|ab| - 1] == b[|b| - 1];
      OccurrencesAppend(a, front, k);
    } else {
      assert a + b == a;
    }
  }

  /** The cache a lookup works with: the one already loaded, or a new
      population of the empty cache. */
  function Lookups(cache: map<string, seq<TP.TriggerDef>>, db: TC.Database): TC.Population
  {
    if cache == map[] then TC.Populate(map[], db) else TC.Population(cache, false)
  }

  /** What registering `names` leaves behind: when a first lookup fails to
      load the cache, nothing recorded and profiling left off; otherwise
      each uncached name recorded missing, each cached trigger recorded,
      and profiling on or off as before. */
  twostate predicate Registered(profiler: MRIProfiler, cache: TC.TriggerProgramParametersCache, db: TC.Database,
                                names: seq<string>, failed: bool)
    reads profiler, cache
  {
    var p := Lookups(old(cache.cache), db);
    failed == (names != [] && p.failed)
    && if failed then
         !profiler.active && cache.cache == p.cache
         && profiler.missingLog == old(profiler.missingLog) && profiler.triggerLog == old(profiler.triggerLog)
       else
         profiler.active == old(profiler.active)
         && profiler.missingLog == old(profiler.missingLog) + MissingNames(names, p.cache)
         && profiler.triggerLog == old(profiler.triggerLog) + CachedTriggers(names, p.cache)
         && cache.cache == (if names == [] then old(cache.cache) else p.cache)
  }

  /** `registerTriggers`: with profiling switched off, every trigger name
      the trigger manager was given is looked up in the trigger cache; a
      name without a list is recorded missing, and every trigger of a list
      is recorded. Profiling is then switched back to what it was; a failed
      lookup throws past that, leaving it off. */
  method RegisterTriggers(profiler: MRIProfiler, cache: TC.TriggerProgramParametersCache, db: TC.Database,
                          triggerNames: seq<string>) returns (o: Outcome)
    requires profiler.Valid() && TC.WellFormedDatabase(db)
    modifies profiler, cache
    ensures profiler.Valid() && TreesKept(profiler)
    ensures profiler.triggerManagerOverhead == old(profiler.triggerManagerOverhead)
    ensures o == Done || o == Thrown(MatrixAccess)
    ensures Registered(profiler, cache, db, triggerNames, o.Thrown?)
  {
    ghost var p := Lookups(cache.cache, db);
    var isProfilerActive := profiler.IsActive();
    profiler.SetActive(false);
    for i := 0 to |triggerNames|
      invariant profiler.Valid() && !profiler.active && TreesKept(profiler)
      invariant profiler.triggerManagerOverhead == old(profiler.triggerManagerOverhead)
      invariant Lookups(cache.cache, db) == p
      invariant i == 0 ==> cache.cache == old(cache.cache)
      invariant i > 0 ==> cache.cache == p.cache && !p.failed
      invariant profiler.missingLog == old(profiler.missingLog) + MissingNames(triggerNames[..i], p.cache)
      invariant profiler.triggerLog == old(profiler.triggerLog) + CachedTriggers(triggerNames[..i], p.cache)
    {
      ghost var missing, cached := MissingNames(triggerNames[..i], p.cache), CachedTriggers(triggerNames[..i], p.cache);
      ghost var missingLog, triggerLog := profiler.missingLog, profiler.triggerLog;
      var o := RegisterTrigger(profiler, cache, db, triggerNames[i], p);
      if o.Thrown? {
        return o;
      }
      ghost var name := triggerNames[i];
      ghost var addedMissing := if name in p.cache then [] else [name];
      ghost var addedTriggers := if name in p.cache then p.cache[name] else [];
      assert profiler.missingLog == missingLog + addedMissing && profiler.triggerLog == triggerLog + addedTriggers;
      RegisteredStep(triggerNames, i, p.cache);
      Appended(old(profiler.missingLog), missing, addedMissing);
      Appended(old(profiler.triggerLog), cached, addedTriggers);
      LookupsStable(old(cache.cache), db);
    }
    assert triggerNames[..|triggerNames|] == triggerNames;
    profiler.SetActive(isProfilerActive);
    o := Done;
  }

  /** Concatenation is associative: a log extended twice is the log
      extended once by both additions. */
  lemma Appended<T>(log: seq<T>, first: seq<T>, second: seq<T>)
    ensures (log + first) + second == log + (first + second)
  {
    assert |(log + first) + second| == |log + (first + second)|;
  }

  /** Registering one more name records it missing or records its
      triggers. */
  lemma RegisteredStep(names: seq<string>, i: nat, cache: map<string, seq<TP.TriggerDef>>)
    requires i < |names|
    ensures MissingNames(names[..i + 1], cache) == MissingNames(names[..i], cache) + (if names[i] in cache then [] else [names[i]])
    ensures CachedTriggers(names[..i + 1], cache) == CachedTriggers(names[..i], cache) + (if names[i] in cache then cache[names[i]] else [])
  {
    assert names[..i + 1][..i] == names[..i];
  }

  /** Once a lookup has loaded the cache, every later lookup works with the
      same cache. */
  lemma LookupsStable(cache: map<string, seq<TP.TriggerDef>>, db: TC.Database)
    requires !Lookups(cache, db).failed
    ensures Lookups(Lookups(cache, db).cache, db) == Lookups(cache, db)
  {
  }

  /** The body of `registerTriggers`' loop for one name: the lookup, then
      the name recorded missing or each of its triggers recorded. */
  method RegisterTrigger(profiler: MRIProfiler, cache: TC.TriggerProgramParametersCache, db: TC.Database,
                         triggerName: string, ghost p: TC.Population) returns (o: Outcome)
    requires profiler.Valid() && TC.WellFormedDatabase(db) && Lookups(cache.cache, db) == p
    modifies profiler, cache
    ensures profiler.Valid() && TreesKept(profiler) && cache.cache == p.cache
    ensures profiler.triggerManagerOverhead == old(profiler.triggerManagerOverhead) && profiler.active == old(profiler.active)
    ensures p.failed ==>
      o == Thrown(MatrixAccess)
      && profiler.missingLog == old(profiler.missingLog) && profiler.triggerLog == old(profiler.triggerLog)
    ensures !p.failed ==>
      o == Done
      && profiler.missingLog == old(profiler.missingLog) + (if triggerName in p.cache then [] else [triggerName])
      && profiler.triggerLog == old(profiler.triggerLog) + (if triggerName in p.cache then p.cache[triggerName] else [])
  {
    var triggers := cache.GetTriggerProgramParameters(db, triggerName);
    if triggers.Err? {
      return Thrown(triggers.error);
    }
    if triggers.value.None? {
      profiler.AddMissingTrigger(triggerName);
    } else {
      AddTriggers(profiler, triggers.value.value);
    }
    o := Done;
  }

  /** The inner loop of `registerTriggers`: every trigger of a cached list
      is recorded, in order. */
  method AddTriggers(profiler: MRIProfiler, triggers: seq<TP.TriggerDef>)
    requires profiler.Valid()
    modifies profiler
    ensures profiler.Valid() && profiler.triggerLog == old(profiler.triggerLog) + triggers
    ensures profiler.missingLog == old(profiler.missingLog) && profiler.active == old(profiler.active)
    ensures profiler.triggerManagerOverhead == old(profiler.triggerManagerOverhead) && TreesKept(profiler)
  {
    for j := 0 to |triggers|
      invariant profiler.Valid() && profiler.triggerLog == old(profiler.triggerLog) + triggers[..j]
      invariant profiler.missingLog == old(profiler.missingLog) && profiler.active == old(profiler.active)
      invariant profiler.triggerManagerOverhead == old(profiler.triggerManagerOverhead) && TreesKept(profiler)
    {
      profiler.AddTrigger(triggers[j]);
      assert triggers[..j + 1] == triggers[..j] + [triggers[j]];
    }
    assert triggers[..|triggers|] == triggers;
  }

  /** `jpo_method`: the JPO's name comes from the declaring type and its
      method from the signature; the call is classified, the trigger
      manager's `mxMain` first registering its triggers, and timed. A
      declaring type without `_mxJPO`, a failed registration or a failing
      `isJavaTrigger` throws before anything is timed. */
  method JpoMethod(profiler: MRIProfiler, cache: TC.TriggerProgramParametersCache, db: TC.Database,
                   typeName: string, signature: string, args: seq<string>, triggerNames: seq<string>, t: string,
                   call: Outcome, startAt: int, stopAt: int)
    returns (o: Outcome, ghost node: Option<ExecutionNode>)
    requires profiler.Valid() && TC.WellFormedDatabase(db)
    modifies profiler, profiler.forest, cache
    ensures profiler.Valid()
    ensures profiler.triggerManagerOverhead == old(profiler.triggerManagerOverhead)
    ensures GetJPOName(typeName).Err? ==>
      o == Thrown(IndexOutOfBounds) && node.None? && TreesKept(profiler) && CountsKept(profiler)
      && cache.cache == old(cache.cache)
    ensures GetJPOName(typeName).Ok? ==>
      var name, methodName := GetJPOName(typeName).value, MethodName(typeName, signature);
      var kind := JpoNodeType(name, old(JavaTriggerAnswer(profiler, t)));
      (RegistersTriggers(name, methodName) ==>
         Registered(profiler, cache, db, triggerNames, node.None?) && (node.None? ==> o == Thrown(MatrixAccess)))
      && (!RegistersTriggers(name, methodName) ==>
            CountsKept(profiler) && cache.cache == old(cache.cache))
      && (kind.Err? ==> o == Thrown(kind.error) && node.None? && TreesKept(profiler))
      && (node.None? ==> o.Thrown? && TreesKept(profiler))
      && (node.Some? ==>
            kind.Ok? && fresh(node.value) && node.value.nodeType == kind.value
            && node.value.name == Some(name) && node.value.methodName == Some(methodName)
            && node.value.parameters == Some(args) && node.value.threadId == t
            && Proceeded(profiler, node.value, call, startAt, stopAt, o))
  {
    var name := GetJPOName(typeName);
    if name.Err? {
      return Thrown(name.error), None;
    }
    var methodName := GetMethod(typeName, signature);
    o, node := JpoCall(profiler, cache, db, name.value, methodName, args, triggerNames, t, call, startAt, stopAt);
  }

  /** `jpo_method` once the JPO's name and method are known: the node is
      made, and timed unless making it threw. */
  method JpoCall(profiler: MRIProfiler, cache: TC.TriggerProgramParametersCache, db: TC.Database,
                 name: string, methodName: string, args: seq<string>, triggerNames: seq<string>, t: string,
                 call: Outcome, startAt: int, stopAt: int)
    returns (o: Outcome, ghost node: Option<ExecutionNode>)
    requires profiler.Valid() && TC.WellFormedDatabase(db)
    modifies profiler, profiler.forest, cache
    ensures profiler.Valid()
    ensures profiler.triggerManagerOverhead == old(profiler.triggerManagerOverhead)
    ensures var kind := JpoNodeType(name, old(JavaTriggerAnswer(profiler, t)));
      (RegistersTriggers(name, methodName) ==>
         Registered(profiler, cache, db, triggerNames, node.None?) && (node.None? ==> o == Thrown(MatrixAccess)))
      && (!RegistersTriggers(name, methodName) ==>
            CountsKept(profiler) && cache.cache == old(cache.cache))
      && (kind.Err? ==> o == Thrown(kind.error) && node.None? && TreesKept(profiler))
      && (node.None? ==> o.Thrown? && TreesKept(profiler))
      && (node.Some? ==>
            kind.Ok? && fresh(node.value) && node.value.nodeType == kind.value
            && node.value.name == Some(name) && node.value.methodName == Some(methodName)
            && node.value.parameters == Some(args) && node.value.threadId == t
            && Proceeded(profiler, node.value, call, startAt, stopAt, o))
  {
    var executionNode := JpoExecutionNode(profiler, cache, db, name, methodName, args, triggerNames, t);
    if executionNode.Err? {
      return Thrown(executionNode.error), None;
    }
    o := Proceed(profiler, executionNode.value, call, startAt, stopAt);
    node := Some(executionNode.value);
  }

  /** The part of `jpo_method` before `proceed`: the node for a call of
      method `methodName` of JPO `name`, classified as `JpoNodeType` says,
      the trigger manager's `mxMain` having registered its triggers first.
      Nothing is recorded in the call trees. */
  method JpoExecutionNode(profiler: MRIProfiler, cache: TC.TriggerProgramParametersCache, db: TC.Database,
                          name: string, methodName: string, args: seq<string>, triggerNames: seq<string>, t: string)
    returns (r: Result<ExecutionNode>)
    requires profiler.Valid() && TC.WellFormedDatabase(db)
    modifies profiler, cache
    ensures profiler.Valid() && TreesKept(profiler)
    ensures profiler.triggerManagerOverhead == old(profiler.triggerManagerOverhead)
    ensures RegistersTriggers(name, methodName) ==>
      Registered(profiler, cache, db, triggerNames, r.Err?) && (r.Err? ==> r.error == MatrixAccess)
    ensures !RegistersTriggers(name, methodName) ==> CountsKept(profiler) && cache.cache == old(cache.cache)
    ensures var kind := JpoNodeType(name, old(JavaTriggerAnswer(profiler, t)));
      (kind.Err? ==> r == Err(kind.error))
      && (r.Ok? ==>
            kind.Ok? && fresh(r.value) && fresh(r.value.stopWatch) && r.value.nodeType == kind.value
            && r.value.name == Some(name) && r.value.methodName == Some(methodName)
            && r.value.parameters == Some(args) && r.value.threadId == t
            && r.value.stopWatch.Valid() && r.value.stopWatch.history == [])
  {
    var jpo := JPOCall(Some(name), Some(methodName), Some(args));
    if StartsWith(name, JpoTriggerManager) {
      var executionNode := new ExecutionNode.FromJPO(TRIGGER_MANAGER, jpo, t);
      if StartsWith(methodName, MxMain) {
        var registered := RegisterTriggers(profiler, cache, db, triggerNames);
        if registered.Thrown? {
          return Err(registered.error);
        }
      }
      r := Ok(executionNode);
    } else {
      var isJavaTrigger := profiler.IsJavaTrigger(t);
      if isJavaTrigger.Err? {
        return Err(isJavaTrigger.error);
      }
      var executionNode := new ExecutionNode.FromJPO(if isJavaTrigger.value then JAVA_TRIGGER else JPO, jpo, t);
      r := Ok(executionNode);
    }
  }
}
