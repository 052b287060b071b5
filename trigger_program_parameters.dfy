/** com.highbar.tools.trigger.cache.TriggerProgramParameters: one
    'eService Trigger Program Parameters' business object. The cache fills an
    object through its setters and never changes it afterwards, so the
    ordering, equality and hash code are stated on `TriggerDef`, the value of
    a filled object. */
module TriggerParameters {
  import opened Wrappers
  import JavaStrings
  import JavaFloats

  /** The length of the `programArguments` array. */
  const ProgramArgumentCount := 15

  /** The attribute values of a filled trigger program parameters object. */
  datatype TriggerDef = TriggerDef(
    name: string,
    revision: string,
    constructorArguments: string,
    methodName: string,
    programName: string,
    sequenceNumber: string,
    targetStates: string,
    errorType: string,
    programArguments: seq<string>,
    isActive: bool,
    isJava: bool)

  /** The sequence number as a float, or `None` where `Float.valueOf` throws. */
  function Sequence(d: TriggerDef): Option<JavaFloats.Float>
  {
    JavaFloats.ParseFloat(d.sequenceNumber)
  }

  /** `compareTo`: both sequence numbers are parsed first; if that succeeds
      the result is by name and then by sequence number. If this object's
      number does not parse the result is -1, if only the other's does not
      it is 1, and names are not looked at in either case. */
  function CompareTo(a: TriggerDef, that: TriggerDef): (r: int)
    ensures Sequence(a).None? ==> r == -1
    ensures Sequence(a).Some? && Sequence(that).None? ==> r == 1
    ensures Sequence(a).Some? && Sequence(that).Some? ==>
      (r == 0 <==> a.name == that.name && Sequence(a) == Sequence(that))
      && (a.name != that.name ==> (r < 0 <==> JavaStrings.CompareTo(a.name, that.name) < 0))
      && (a.name == that.name ==> (r < 0 <==> JavaFloats.Less(Sequence(a).value, Sequence(that).value)))
  {
    var thisSequence := JavaFloats.ParseFloat(a.sequenceNumber);
    if thisSequence.None? then -1
    else
      var thatSequence := JavaFloats.ParseFloat(that.sequenceNumber);
      if thatSequence.None? then 1
      else
        JavaStrings.CompareToZeroIffEqual(a.name, that.name);
        var result := JavaStrings.CompareTo(a.name, that.name);
        if result == 0 then JavaFloats.Compare(thisSequence.value, thatSequence.value) else result
  }

  /** Two objects whose sequence numbers do not parse each compare as less
      than the other: `compareTo` is not antisymmetric. */
  lemma UnparseableBothLess(a: TriggerDef, b: TriggerDef)
    requires Sequence(a).None? && Sequence(b).None?
    ensures CompareTo(a, b) == -1 && CompareTo(b, a) == -1
  {
  }

  /** Where both sequence numbers parse, swapping the arguments flips the
      sign of the result. */
  lemma CompareToAntisymmetricWhenParsed(a: TriggerDef, b: TriggerDef)
    requires Sequence(a).Some? && Sequence(b).Some?
    ensures CompareTo(a, b) < 0 <==> CompareTo(b, a) > 0
    ensures CompareTo(a, b) == 0 <==> CompareTo(b, a) == 0
  {
    JavaStrings.CompareToAntisymmetric(a.name, b.name);
  }

  /** The order the comparator sorts by, stated independently of it: an
      unparseable sequence number goes before every parseable one; among
      parseable ones, by name and then by numeric sequence. `After(a, b)`
      means `a` belongs strictly after `b`. */
  predicate After(a: TriggerDef, b: TriggerDef)
  {
    match (Sequence(a), Sequence(b))
    case (None, _) => false
    case (Some(_), None) => true
    case (Some(x), Some(y)) =>
      JavaStrings.CompareTo(a.name, b.name) > 0 || (a.name == b.name && JavaFloats.Less(y, x))
  }

  /** What `After` looks at: nothing for an unparseable sequence number,
      otherwise the name and the number. */
  function SortKey(d: TriggerDef): Option<(string, JavaFloats.Float)>
  {
    match Sequence(d)
    case None => None
    case Some(x) => Some((d.name, x))
  }

  /** A sort that only asks whether `compareTo` is positive sorts by `After`. */
  lemma CompareToPositiveIffAfter(a: TriggerDef, b: TriggerDef)
    ensures CompareTo(a, b) > 0 <==> After(a, b)
  {
    if Sequence(a).Some? && Sequence(b).Some? && a.name != b.name {
      JavaStrings.CompareToZeroIffEqual(a.name, b.name);
    }
  }

  /** `After` is asymmetric and only separates different keys. */
  lemma AfterAsymmetric(a: TriggerDef, b: TriggerDef)
    requires After(a, b)
    ensures !After(b, a) && SortKey(a) != SortKey(b)
  {
    JavaStrings.CompareToAntisymmetric(a.name, b.name);
    JavaStrings.CompareToZeroIffEqual(a.name, b.name);
  }

  /** Two triggers neither of which sorts after the other have the same sort
      key, and conversely: the unparseable ones form one class at the
      bottom. */
  lemma AfterIncomparableIffSameKey(a: TriggerDef, b: TriggerDef)
    ensures !After(a, b) && !After(b, a) <==> SortKey(a) == SortKey(b)
  {
    JavaStrings.CompareToAntisymmetric(a.name, b.name);
    JavaStrings.CompareToZeroIffEqual(a.name, b.name);
    if Sequence(a).Some? && Sequence(b).Some? {
      JavaFloats.LessTotal(Sequence(a).value, Sequence(b).value);
    }
  }

  /** `After` is transitive. With the lemma above it is a strict weak order,
      so a stable sort that asks only `After` has one possible result. */
  lemma AfterTransitive(a: TriggerDef, b: TriggerDef, c: TriggerDef)
    requires After(a, b) && After(b, c)
    ensures After(a, c)
  {
    if Sequence(c).Some? {
      JavaStrings.CompareToAntisymmetric(a.name, b.name);
      JavaStrings.CompareToAntisymmetric(b.name, c.name);
      JavaStrings.CompareToAntisymmetric(a.name, c.name);
      if JavaStrings.CompareTo(a.name, b.name) > 0 && JavaStrings.CompareTo(b.name, c.name) > 0 {
        JavaStrings.CompareToTransitive(c.name, b.name, a.name);
      }
    }
  }

  /** `equals`: another trigger program parameters object with the same name
      and revision. */
  function Equals(a: TriggerDef, o: Option<TriggerDef>): (r: bool)
    ensures o == Some(a) ==> r
    ensures r ==> o.Some? && o.value.name == a.name && o.value.revision == a.revision
  {
    if o.None? then false else a.name == o.value.name && a.revision == o.value.revision
  }

  /** Equality ignores every attribute but the name and the revision. */
  lemma EqualsOnlyNameAndRevision(a: TriggerDef, b: TriggerDef)
    requires a.name == b.name && a.revision == b.revision
    ensures Equals(a, Some(b)) && Equals(b, Some(a))
  {
  }

  /** `hashCode`: 31 times the name's hash plus the revision's, in `int`
      arithmetic. */
  function HashCode(d: TriggerDef): (h: int)
    ensures -0x8000_0000 <= h < 0x8000_0000
  {
    JavaStrings.Int32(31 * JavaStrings.HashCode(d.name) + JavaStrings.HashCode(d.revision))
  }

  /** Equal objects have equal hash codes. */
  lemma HashCodeAgreesWithEquals(a: TriggerDef, b: TriggerDef)
    requires Equals(a, Some(b))
    ensures HashCode(a) == HashCode(b)
  {
  }

  class TriggerProgramParameters {
    var name: string
    var revision: string
    var constructorArguments: string
    var methodName: string
    var programName: string
    var sequenceNumber: string
    var targetStates: string
    var errorType: string
    const programArguments: array<string>
    var isActive: bool
    var isJava: bool

    ghost predicate Valid()
      reads this
    {
      programArguments.Length == ProgramArgumentCount
    }

    /** The value of the object in its current state. */
    function Def(): TriggerDef
      reads this, programArguments
    {
      Fields().(programArguments := programArguments[..])
    }

    /** The fields of the object, with no program arguments. */
    function Fields(): TriggerDef
      reads this
    {
      TriggerDef(name, revision, constructorArguments, methodName, programName, sequenceNumber,
        targetStates, errorType, [], isActive, isJava)
    }

    /** A new object: no attributes yet, fifteen empty argument slots, neither
        active nor Java. */
    constructor ()
      ensures Valid() && fresh(programArguments)
      ensures Def() == TriggerDef("", "", "", "", "", "", "", "", seq(ProgramArgumentCount, _ => ""), false, false)
    {
      name, revision, constructorArguments, methodName := "", "", "", "";
      programName, sequenceNumber, targetStates, errorType := "", "", "", "";
      programArguments := new string[ProgramArgumentCount](_ => "");
      isActive, isJava := false, false;
    }

    method SetName(name: string)
      modifies this
      ensures Fields() == old(Fields()).(name := name)
    {
      this.name := name;
    }

    method SetRevision(revision: string)
      modifies this
      ensures Fields() == old(Fields()).(revision := revision)
    {
      this.revision := revision;
    }

    method SetConstructorArguments(constructorArguments: string)
      modifies this
      ensures Fields() == old(Fields()).(constructorArguments := constructorArguments)
    {
      this.constructorArguments := constructorArguments;
    }

    method SetMethodName(methodName: string)
      modifies this
      ensures Fields() == old(Fields()).(methodName := methodName)
    {
      this.methodName := methodName;
    }

    method SetProgramName(programName: string)
      modifies this
      ensures Fields() == old(Fields()).(programName := programName)
    {
      this.programName := programName;
    }

    method SetSequenceNumber(sequenceNumber: string)
      modifies this
      ensures Fields() == old(Fields()).(sequenceNumber := sequenceNumber)
    {
      this.sequenceNumber := sequenceNumber;
    }

    method SetTargetStates(targetStates: string)
      modifies this
      ensures Fields() == old(Fields()).(targetStates := targetStates)
    {
      this.targetStates := targetStates;
    }

    method SetErrorType(errorType: string)
      modifies this
      ensures Fields() == old(Fields()).(errorType := errorType)
    {
      this.errorType := errorType;
    }

    method SetActive(isActive: bool)
      modifies this
      ensures Fields() == old(Fields()).(isActive := isActive)
    {
      this.isActive := isActive;
    }

    method SetJava(isJava: bool)
      modifies this
      ensures Fields() == old(Fields()).(isJava := isJava)
    {
      this.isJava := isJava;
    }

    /** `setProgramArgumentK` for K = `k`: writes slot `k - 1` and no other. */
    method SetProgramArgument(k: nat, argument: string)
      requires Valid() && 1 <= k <= ProgramArgumentCount
      modifies programArguments
      ensures programArguments[..] == old(programArguments[..])[k - 1 := argument]
    {
      programArguments[k - 1] := argument;
    }

    /** `getProgramArguments`: a new array of the same fifteen slots, so
        writing to it leaves this object as it was. */
    method GetProgramArguments() returns (defensiveCopy: array<string>)
      requires Valid()
      ensures fresh(defensiveCopy)
      ensures defensiveCopy.Length == ProgramArgumentCount
      ensures defensiveCopy[..] == programArguments[..]
    {
      defensiveCopy := new string[programArguments.Length](_ => "");
      var i := 0;
      while i < defensiveCopy.Length
        invariant 0 <= i <= defensiveCopy.Length
        invariant defensiveCopy[..i] == programArguments[..i]
      {
        defensiveCopy[i] := programArguments[i];
        i := i + 1;
      }
    }
  }

  /** Writing to the copy `getProgramArguments` returns does not change the
      object. */
  method CopyIsDefensive(p: TriggerProgramParameters, k: nat, argument: string) returns (copy: array<string>)
    requires p.Valid() && k < ProgramArgumentCount
    ensures copy.Length == ProgramArgumentCount && copy[k] == argument && p.Def() == old(p.Def())
  {
    copy := p.GetProgramArguments();
    copy[k] := argument;
  }
}
