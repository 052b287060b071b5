/** com.highbar.tools.mri.monitor.ExecutionNode: one profiled invocation, its
    category, target, method, argument values and stopwatch. A JPO call
    descriptor supplies the same three values. */
module ExecutionNodes {
  import opened Wrappers
  import JavaStrings
  import StopWatch

  /** `ExecutionNode.Type`, in declaration order. */
  datatype NodeType =
    | ROOT | LG_CNS_API | MX_API | JSP | JPO | JAVA_TRIGGER | TCL_TRIGGER | TRIGGER_MANAGER
    | API     // deprecated: use LG_CNS_API or MX_API
    | TRIGGER // deprecated: use TCL_TRIGGER or JAVA_TRIGGER

  /** The position of a constant in the declaration; enum `compareTo` is the
      difference of positions. */
  function Ordinal(t: NodeType): (n: nat)
    ensures n < 10
  {
    match t
    case ROOT => 0
    case LG_CNS_API => 1
    case MX_API => 2
    case JSP => 3
    case JPO => 4
    case JAVA_TRIGGER => 5
    case TCL_TRIGGER => 6
    case TRIGGER_MANAGER => 7
    case API => 8
    case TRIGGER => 9
  }

  /** Distinct constants have distinct positions. */
  lemma OrdinalInjective(a: NodeType, b: NodeType)
    ensures Ordinal(a) == Ordinal(b) <==> a == b
  {
  }

  /** `toString()` of a constant: its name. */
  function TypeName(t: NodeType): string
  {
    match t
    case ROOT => "ROOT"
    case LG_CNS_API => "LG_CNS_API"
    case MX_API => "MX_API"
    case JSP => "JSP"
    case JPO => "JPO"
    case JAVA_TRIGGER => "JAVA_TRIGGER"
    case TCL_TRIGGER => "TCL_TRIGGER"
    case TRIGGER_MANAGER => "TRIGGER_MANAGER"
    case API => "API"
    case TRIGGER => "TRIGGER"
  }

  /** `toDisplayString()`: the label shown to users. */
  function DisplayString(t: NodeType): string
  {
    match t
    case ROOT => "Thread Root"
    case LG_CNS_API => "LG CNS"
    case MX_API => "Matrix API"
    case JSP => "JSP"
    case JPO => "JPO"
    case JAVA_TRIGGER => "Trigger (Java)"
    case TCL_TRIGGER => "Trigger (TCL)"
    case TRIGGER_MANAGER => "Trigger Manager"
    case API => "Matrix API"
    case TRIGGER => "Trigger (Java)"
  }

  /** The deprecated constants display like their replacements, and those are
      the only two labels that are shared. */
  lemma DisplayStringsShared(a: NodeType, b: NodeType)
    ensures DisplayString(a) == DisplayString(b) <==>
      a == b || {a, b} == {MX_API, API} || {a, b} == {JAVA_TRIGGER, TRIGGER}
  {
  }

  /** A JPO call descriptor: program name, method and arguments, any of which
      may be null. Arguments are represented by their string forms. */
  datatype JPOCall = JPOCall(name: Option<string>, methodName: Option<string>, args: Option<seq<string>>)

  /** The fields an execution node's identity rests on. */
  datatype NodeKey = NodeKey(nodeType: NodeType, name: Option<string>, methodName: Option<string>)

  /** `equals`: an ExecutionNode with the same method, name and type, where a
      null field matches only a null field. */
  function Equals(a: NodeKey, o: Option<NodeKey>): (r: bool)
    ensures r <==> o == Some(a)
  {
    if o.None? then false
    else
      var that := o.value;
      !(if a.methodName.Some? then !(that.methodName.Some? && a.methodName.value == that.methodName.value) else that.methodName.Some?)
      && !(if a.name.Some? then !(that.name.Some? && a.name.value == that.name.value) else that.name.Some?)
      && a.nodeType == that.nodeType
  }

  /** Neither name nor method is null: the keys `compareTo` can handle. */
  predicate Comparable(k: NodeKey)
  {
    k.name.Some? && k.methodName.Some?
  }

  /** `compareTo`: a null argument is greater; otherwise by type position,
      then name, then method. A null name or method reached by the comparison
      throws a NullPointerException. */
  function CompareTo(a: NodeKey, that: Option<NodeKey>): (r: Result<int>)
    ensures that.None? ==> r == Ok(1)
    ensures that.Some? && Comparable(a) && Comparable(that.value) ==> r.Ok? && (r.value == 0 <==> Equals(a, that))
    ensures that.Some? && a.nodeType != that.value.nodeType ==> r == Ok(Ordinal(a.nodeType) - Ordinal(that.value.nodeType))
  {
    if that.None? then Ok(1)
    else
      var b := that.value;
      OrdinalInjective(a.nodeType, b.nodeType);
      var byType := Ordinal(a.nodeType) - Ordinal(b.nodeType);
      if byType != 0 then Ok(byType)
      else if a.name.None? || b.name.None? then Err(NullPointer)
      else
        JavaStrings.CompareToZeroIffEqual(a.name.value, b.name.value);
        var byName := JavaStrings.CompareTo(a.name.value, b.name.value);
        if byName != 0 then Ok(byName)
        else if a.methodName.None? || b.methodName.None? then Err(NullPointer)
        else
          JavaStrings.CompareToZeroIffEqual(a.methodName.value, b.methodName.value);
          Ok(JavaStrings.CompareTo(a.methodName.value, b.methodName.value))
  }

  /** On keys without nulls, swapping the arguments negates the result. */
  lemma CompareToAntisymmetric(a: NodeKey, b: NodeKey)
    requires Comparable(a) && Comparable(b)
    ensures CompareTo(a, Some(b)).Ok? && CompareTo(b, Some(a)).Ok?
    ensures CompareTo(a, Some(b)).value == -CompareTo(b, Some(a)).value
  {
    JavaStrings.CompareToAntisymmetric(a.name.value, b.name.value);
    JavaStrings.CompareToAntisymmetric(a.methodName.value, b.methodName.value);
  }

  /** On keys without nulls, "less than" is transitive, so the profiler's
      sorted map by key is well defined. */
  lemma CompareToTransitive(a: NodeKey, b: NodeKey, c: NodeKey)
    requires Comparable(a) && Comparable(b) && Comparable(c)
    requires CompareTo(a, Some(b)).value < 0 && CompareTo(b, Some(c)).value < 0
    ensures CompareTo(a, Some(c)).value < 0
  {
    var oa, ob, oc := Ordinal(a.nodeType), Ordinal(b.nodeType), Ordinal(c.nodeType);
    OrdinalInjective(a.nodeType, b.nodeType);
    OrdinalInjective(b.nodeType, c.nodeType);
    OrdinalInjective(a.nodeType, c.nodeType);
    var na, nb, nc := a.name.value, b.name.value, c.name.value;
    var ma, mb, mc := a.methodName.value, b.methodName.value, c.methodName.value;
    JavaStrings.CompareToZeroIffEqual(na, nb);
    JavaStrings.CompareToZeroIffEqual(nb, nc);
    if oa == ob && ob == oc {
      if JavaStrings.CompareTo(na, nb) < 0 && JavaStrings.CompareTo(nb, nc) < 0 {
        JavaStrings.CompareToTransitive(na, nb, nc);
      } else if na == nb && nb == nc {
        JavaStrings.CompareToTransitive(ma, mb, mc);
      }
      if na != nc {
        JavaStrings.CompareToZeroIffEqual(na, nc);
      }
    }
  }

  /** `hashCode`: 31-fold combination of the type's hash, the name's and the
      method's (0 for null), in `int` arithmetic. The enum constant's own hash
      is an identity hash, so it is a parameter here. */
  function HashCode(k: NodeKey, typeHash: NodeType -> int): (h: int)
    ensures -0x8000_0000 <= h < 0x8000_0000
  {
    var result := JavaStrings.Int32(typeHash(k.nodeType));
    var result := JavaStrings.Int32(31 * result + (if k.name.Some? then JavaStrings.HashCode(k.name.value) else 0));
    JavaStrings.Int32(31 * result + (if k.methodName.Some? then JavaStrings.HashCode(k.methodName.value) else 0))
  }

  /** Equal nodes have equal hash codes. */
  lemma HashCodeAgreesWithEquals(a: NodeKey, b: NodeKey, typeHash: NodeType -> int)
    requires Equals(a, Some(b))
    ensures HashCode(a, typeHash) == HashCode(b, typeHash)
  {
  }

  class ExecutionNode {
    const nodeType: NodeType
    const name: Option<string>
    var methodName: Option<string>
    var parameters: Option<seq<string>>
    const stopWatch: StopWatch.DefaultStopWatch
    const threadId: string
    var netTime: int

    /** A new node: the given identity and arguments, the calling thread's
        id, a new stopped stopwatch and no net time. */
    constructor (nodeType: NodeType, name: Option<string>, methodName: Option<string>, parameters: Option<seq<string>>, threadId: string)
      ensures this.nodeType == nodeType && this.name == name && this.methodName == methodName
      ensures this.parameters == parameters && this.threadId == threadId && netTime == 0
      ensures fresh(stopWatch) && stopWatch.Valid() && stopWatch.history == [] && !stopWatch.isStarted
    {
      this.nodeType := nodeType;
      this.name := name;
      this.methodName := methodName;
      this.parameters := parameters;
      this.threadId := threadId;
      netTime := 0;
      stopWatch := new StopWatch.DefaultStopWatch();
    }

    /** The JPO constructor: name, method and arguments come from the call
        descriptor. */
    constructor FromJPO(nodeType: NodeType, jpo: JPOCall, threadId: string)
      ensures this.nodeType == nodeType && name == jpo.name && methodName == jpo.methodName
      ensures parameters == jpo.args && this.threadId == threadId && netTime == 0
      ensures fresh(stopWatch) && stopWatch.Valid() && stopWatch.history == [] && !stopWatch.isStarted
    {
      this.nodeType := nodeType;
      name := jpo.name;
      methodName := jpo.methodName;
      parameters := jpo.args;
      this.threadId := threadId;
      netTime := 0;
      stopWatch := new StopWatch.DefaultStopWatch();
    }

    /** The identity `equals`, `compareTo` and `hashCode` look at. */
    function Key(): NodeKey
      reads this
    {
      NodeKey(nodeType, name, methodName)
    }

    method SetMethod(methodName: Option<string>)
      modifies this
      ensures this.methodName == methodName && parameters == old(parameters) && netTime == old(netTime)
    {
      this.methodName := methodName;
    }

    method SetParameters(parameters: Option<seq<string>>)
      modifies this
      ensures this.parameters == parameters && methodName == old(methodName) && netTime == old(netTime)
    {
      this.parameters := parameters;
    }

    method SetNetTime(netTime: int)
      modifies this`netTime
      ensures this.netTime == netTime && methodName == old(methodName) && parameters == old(parameters)
    {
      this.netTime := netTime;
    }
  }
}
