/** com.highbar.tools.trigger.findMissing.MissingTriggerFinder: lists every
    trigger defined on an attribute, type, relationship or policy state
    whose program-parameters name has no trigger program parameters object.
    The `list ... select trigger` output of MQL is parsed line by line; a
    header line names the admin object the following trigger lines belong to.
    MQL is a function from command text to its output or a MatrixException. */
module MissingTriggers {
  import opened Wrappers
  import opened Strings
  import opened JavaStrings
  import FilteredLists
  import TriggerCache

  /** Trigger program parameters by name, as the cache holds them. */
  type ParameterCache = map<string, seq<TriggerCache.TriggerParameters.TriggerDef>>

  /** The admin object a trigger is defined on. */
  datatype Triggerable = Triggerable(adminType: string, name: string)

  /** A trigger as parsed; `triggerable` is None when no header line preceded
      it (a null reference in the source). */
  datatype Trigger = Trigger(
    triggerable: Option<Triggerable>,
    state: string,
    event: string,
    program: string,
    parameters: seq<string>)

  /* ---------- getTriggerableTypeNames ---------- */

  /** The keys of `getTriggerableTypeNames` in the order its TreeMap yields them. */
  const AdminTypes: seq<string> := ["attribute", "policy", "relationship", "type"]

  /** `getTriggerableTypeNames`: the select clause per admin type. Types and
      relationships select only their own triggers unless inherited ones are
      wanted; attributes select their triggers and policies their states'. */
  function TriggerableTypeNames(includeInherited: bool): (m: map<string, string>)
    ensures forall t :: t in m <==> t in AdminTypes
  {
    var own := if includeInherited then "trigger" else "immediatetrigger";
    map["type" := own, "relationship" := own, "attribute" := "trigger", "policy" := "state.trigger"]
  }

  /** Only the type and relationship selections depend on the flag: the flag
      picks "trigger" over "immediatetrigger" for them. */
  lemma TypeNamesInheritance(includeInherited: bool)
    ensures var m := TriggerableTypeNames(includeInherited);
      && (forall t :: t in {"type", "relationship"} ==> (m[t] == "trigger" <==> includeInherited))
      && (forall t :: t in {"type", "relationship"} ==> (m[t] == "immediatetrigger" <==> !includeInherited))
      && m["attribute"] == TriggerableTypeNames(!includeInherited)["attribute"] == "trigger"
      && m["policy"] == TriggerableTypeNames(!includeInherited)["policy"] == "state.trigger"
  {
  }

  /** `AdminTypes` is the key set in ascending `compareTo` order, which is
      the order the loop of `getTriggers` visits the admin types in. */
  lemma AdminTypesAscending()
    ensures forall i, j :: 0 <= i < j < |AdminTypes| ==> CompareTo(AdminTypes[i], AdminTypes[j]) < 0
  {
    assert CompareTo("attribute", "policy") < 0;
    assert CompareTo("policy", "relationship") < 0;
    assert CompareTo("relationship", "type") < 0;
    CompareToTransitive("attribute", "policy", "relationship");
    CompareToTransitive("attribute", "relationship", "type");
    CompareToTransitive("policy", "relationship", "type");
  }

  /** The MQL command run for one admin type. */
  function ListCommand(adminType: string, select: string): string
  {
    "list '" + adminType + "' * select " + select
  }

  /** The commands `getTriggers` runs, in order. */
  function Commands(includeInherited: bool): (r: seq<string>)
    ensures |r| == |AdminTypes|
    ensures forall k :: 0 <= k < |r| ==>
      r[k] == ListCommand(AdminTypes[k], TriggerableTypeNames(includeInherited)[AdminTypes[k]])
  {
    seq(|AdminTypes|, k requires 0 <= k < |AdminTypes| =>
      ListCommand(AdminTypes[k], TriggerableTypeNames(includeInherited)[AdminTypes[k]]))
  }

  /* ---------- getNameFromRemainingTokens ---------- */

  const Space: set<char> := {' '}

  /** What `getNameFromRemainingTokens` computes: the tokens from `start` on,
      joined by single spaces; an ArrayIndexOutOfBoundsException when there
      is no token at `start`. */
  function RemainingName(tokens: seq<string>, start: int): Result<string>
  {
    if 0 <= start < |tokens| then Ok(Join(tokens[start..], " ")) else Err(IndexOutOfBounds)
  }

  /** `getNameFromRemainingTokens`: a StringBuilder starting with the token at
      `start`, then a space and each later token. */
  method GetNameFromRemainingTokens(tokens: seq<string>, start: int) returns (r: Result<string>)
    ensures r == RemainingName(tokens, start)
    ensures r.Ok? ==> |r.value| >= TotalLength(tokens[start..])
  {
    if !(0 <= start < |tokens|) {
      return Err(IndexOutOfBounds);
    }
    var name := tokens[start];
    var i := start + 1;
    assert tokens[start..i] == [tokens[start]];
    while i < |tokens|
      invariant start + 1 <= i <= |tokens|
      invariant name == Join(tokens[start..i], " ")
    {
      JoinSnoc(tokens[start..i], tokens[i], " ");
      assert tokens[start..i + 1] == tokens[start..i] + [tokens[i]];
      name := name + " " + tokens[i];
      i := i + 1;
    }
    assert tokens[start..i] == tokens[start..];
    JoinLength(tokens[start..], " ");
    return Ok(name);
  }

  /** The leading token of `s` is exactly `w` when `s` starts with `w` and a
      separator, and `w` holds no separator. */
  lemma {:induction false} TokenLengthAt(s: string, seps: set<char>, n: nat)
    requires n < |s| && s[n] in seps
    requires forall i :: 0 <= i < n ==> s[i] !in seps
    ensures TokenLength(s, seps) == n
  {
    if n > 0 {
      TokenLengthAt(s[1..], seps, n - 1);
    }
  }

  /** Splitting on spaces the name built from space-free tokens gives the
      tokens back: the name loses nothing. */
  lemma {:induction false} SplitJoinedTokens(tokens: seq<string>)
    requires forall t :: t in tokens ==> |t| > 0 && forall i :: 0 <= i < |t| ==> t[i] !in Space
    ensures SplitAny(Join(tokens, " "), Space) == tokens
  {
    if |tokens| == 1 {
      var t := tokens[0];
      assert t in tokens;
      assert Join(tokens, " ") == t;
      assert TokenLength(t, Space) == |t|;
      assert t[..|t|] == t && t[|t|..] == [];
      assert SplitAny(t, Space) == [t] + SplitAny([], Space);
    } else if |tokens| > 1 {
      var t, rest := tokens[0], Join(tokens[1..], " ");
      var s := t + " " + rest;
      assert Join(tokens, " ") == s;
      TokenLengthAt(s, Space, |t|);
      assert s[..|t|] == t;
      assert s[|t|..] == " " + rest;
      assert (" " + rest)[1..] == rest;
      assert forall u :: u in tokens[1..] ==> u in tokens;
      SplitJoinedTokens(tokens[1..]);
      assert SplitAny(s, Space) == [t] + tokens[1..];
    }
  }

  /** The name of a header line, split on spaces again, is the line's words
      from `start` on. */
  lemma RemainingNameWords(line: string, start: int)
    requires RemainingName(SplitAny(line, Space), start).Ok?
    ensures SplitAny(RemainingName(SplitAny(line, Space), start).value, Space) == SplitAny(line, Space)[start..]
  {
    var words := SplitAny(line, Space);
    assert forall t :: t in words[start..] ==> t in words;
    SplitJoinedTokens(words[start..]);
  }

  /* ---------- header lines ---------- */

  /** `getTypeRelationshipOrAttributeTriggerable`: the first word is the admin
      type ("business" standing for "type"); the name is the words from the
      third on. */
  function TypeRelationshipOrAttributeTriggerable(line: string): Result<Triggerable>
  {
    var words := SplitAny(line, Space);
    if |words| == 0 then Err(IndexOutOfBounds)
    else
      var name := RemainingName(words, 2);
      if name.Err? then Err(name.error)
      else Ok(Triggerable(if words[0] == "business" then "type" else words[0], name.value))
  }

  /** `getPolicyTriggerable`: the first word is the admin type, the name is
      the words from the second on. */
  function PolicyTriggerable(line: string): Result<Triggerable>
  {
    var words := SplitAny(line, Space);
    if |words| == 0 then Err(IndexOutOfBounds)
    else
      var name := RemainingName(words, 1);
      if name.Err? then Err(name.error)
      else Ok(Triggerable(words[0], name.value))
  }

  /** The first word of a line that starts with a space-free word and a space. */
  lemma FirstWord(line: string, w: string)
    requires |w| > 0 && ' ' !in w
    requires StartsWith(line, w + " ")
    ensures |SplitAny(line, Space)| > 0 && SplitAny(line, Space)[0] == w
  {
    assert forall i :: 0 <= i < |w| ==> w[i] !in Space;
    assert line[|w|] == ' ';
    assert forall i :: 0 <= i < |w| ==> line[i] == w[i];
    TokenLengthAt(line, Space, |w|);
    assert line[..|w|] == w;
  }

  /** The admin type of a business type, relationship or attribute header
      is the first word, "business" standing for "type". */
  lemma TriggerableOfFirstWord(line: string, w: string)
    requires TypeRelationshipOrAttributeTriggerable(line).Ok?
    requires |w| > 0 && ' ' !in w && StartsWith(line, w + " ")
    ensures TypeRelationshipOrAttributeTriggerable(line).value.adminType == if w == "business" then "type" else w
  {
    FirstWord(line, w);
  }

  /** A header of a business type names the admin type "type", the key the
      `list` command of that section was run for. */
  lemma BusinessTypeHeader(line: string)
    requires TypeRelationshipOrAttributeTriggerable(line).Ok? && StartsWith(line, "business type")
    ensures TypeRelationshipOrAttributeTriggerable(line).value.adminType == "type"
  {
    assert StartsWith(line, "business ") by { assert line[..9] == line[..13][..9]; }
    TriggerableOfFirstWord(line, "business");
  }

  /** A relationship header names the admin type "relationship". */
  lemma RelationshipTypeHeader(line: string)
    requires TypeRelationshipOrAttributeTriggerable(line).Ok? && StartsWith(line, "relationship type")
    ensures TypeRelationshipOrAttributeTriggerable(line).value.adminType == "relationship"
  {
    assert StartsWith(line, "relationship ") by { assert line[..13] == line[..17][..13]; }
    TriggerableOfFirstWord(line, "relationship");
  }

  /** An attribute header names the admin type "attribute". */
  lemma AttributeTypeHeader(line: string)
    requires TypeRelationshipOrAttributeTriggerable(line).Ok? && StartsWith(line, "attribute type")
    ensures TypeRelationshipOrAttributeTriggerable(line).value.adminType == "attribute"
  {
    assert StartsWith(line, "attribute ") by { assert line[..10] == line[..14][..10]; }
    TriggerableOfFirstWord(line, "attribute");
  }

  /** A `policy NAME` header names the policy admin type. */
  lemma PolicyAdminType(line: string)
    requires PolicyTriggerable(line).Ok? && StartsWith(line, "policy ")
    ensures PolicyTriggerable(line).value.adminType == "policy"
  {
    FirstWord(line, "policy");
  }

  /* ---------- trigger lines ---------- */

  /** The separators of a state trigger line and of any other trigger line. */
  const StateSeparators: set<char> := {'[', ']', '=', ':', '(', ')'}
  const TriggerSeparators: set<char> := {'=', ':', '(', ')'}

  /** The program-parameters names of a parameter token: its space-free words,
      which hold the token's text less its spaces. */
  function ParameterNames(token: string): (r: seq<string>)
    ensures forall p :: p in r ==> |p| > 0 && forall i :: 0 <= i < |p| ==> p[i] != ' '
    ensures Concat(r) == Without(token, Space)
  {
    SplitAnyKeepsText(token, Space);
    SplitAny(token, Space)
  }

  /** `getStateTrigger`: state, event (trimmed) and program from tokens 1, 3
      and 4, parameter names from token 5 or none; fewer than five tokens
      raise an ArrayIndexOutOfBoundsException. */
  function StateTrigger(info: seq<string>): (r: Result<Trigger>)
    ensures r.Ok? <==> |info| >= 5
    ensures r.Ok? ==>
      && r.value.triggerable == None
      && r.value.state == info[1]
      && r.value.event == Trim(info[3])
      && r.value.program == info[4]
      && (|info| == 5 ==> r.value.parameters == [])
      && (|info| > 5 ==> Concat(r.value.parameters) == Without(info[5], Space))
    ensures r.Err? ==> r.error == IndexOutOfBounds
  {
    if |info| < 5 then Err(IndexOutOfBounds)
    else Ok(Trigger(None, info[1], Trim(info[3]), info[4], if |info| > 5 then ParameterNames(info[5]) else []))
  }

  /** `getTypeRelationshipOrAttributeTrigger`: event (trimmed) and program from
      tokens 1 and 2, parameter names from token 3 or, without one, the
      single blank name; the state stays "n/a". Fewer than three tokens raise
      an ArrayIndexOutOfBoundsException. */
  function TypeRelationshipOrAttributeTrigger(info: seq<string>): (r: Result<Trigger>)
    ensures r.Ok? <==> |info| >= 3
    ensures r.Ok? ==>
      && r.value.triggerable == None
      && r.value.state == "n/a"
      && r.value.event == Trim(info[1])
      && r.value.program == info[2]
      && (|info| == 3 ==> r.value.parameters == [""])
      && (|info| > 3 ==> Concat(r.value.parameters) == Without(info[3], Space))
    ensures r.Err? ==> r.error == IndexOutOfBounds
  {
    if |info| < 3 then Err(IndexOutOfBounds)
    else Ok(Trigger(None, "n/a", Trim(info[1]), info[2], if |info| > 3 then ParameterNames(info[3]) else [""]))
  }

  /* ---------- one line of MQL output ---------- */

  /** What one output line contributes. */
  datatype Line = HeaderLine(header: Triggerable) | TriggerLine(trigger: Trigger) | OtherLine

  predicate IsTypeHeader(line: string)
  {
    StartsWith(line, "business type") || StartsWith(line, "relationship type") || StartsWith(line, "attribute type")
  }

  /** The classification of the loop body of `getTriggers`, first match wins. */
  function ClassifyLine(line: string): (r: Result<Line>)
    ensures r.Ok? && r.value.HeaderLine? ==> IsTypeHeader(line) || StartsWith(line, "policy")
    ensures r.Ok? && r.value.TriggerLine? ==>
      !IsTypeHeader(line) && !StartsWith(line, "policy") && (Contains(line, "state[") || Contains(line, "trigger = "))
    ensures r == Ok(OtherLine) <==>
      !IsTypeHeader(line) && !StartsWith(line, "policy") && !Contains(line, "state[") && !Contains(line, "trigger = ")
  {
    if IsTypeHeader(line) then
      var t := TypeRelationshipOrAttributeTriggerable(line);
      if t.Err? then Err(t.error) else Ok(HeaderLine(t.value))
    else if StartsWith(line, "policy") then
      var t := PolicyTriggerable(line);
      if t.Err? then Err(t.error) else Ok(HeaderLine(t.value))
    else if Contains(line, "state[") then
      var t := StateTrigger(SplitAny(line, StateSeparators));
      if t.Err? then Err(t.error) else Ok(TriggerLine(t.value))
    else if Contains(line, "trigger = ") then
      var t := TypeRelationshipOrAttributeTrigger(SplitAny(line, TriggerSeparators));
      if t.Err? then Err(t.error) else Ok(TriggerLine(t.value))
    else Ok(OtherLine)
  }

  /** The triggers parsed so far and the most recent header. */
  datatype ParseState = ParseState(triggers: seq<Trigger>, triggerable: Option<Triggerable>)

  /** The loop body of `getTriggers` once its line is classified: a header
      replaces the one in force, a trigger is appended with it. */
  function Step(st: ParseState, c: Result<Line>): Result<ParseState>
  {
    if c.Err? then Err(c.error)
    else match c.value
      case HeaderLine(h) => Ok(st.(triggerable := Some(h)))
      case TriggerLine(t) => Ok(st.(triggers := st.triggers + [t.(triggerable := st.triggerable)]))
      case OtherLine => Ok(st)
  }

  /** The inner loop of `getTriggers` over the lines of one output, with the
      lines classified by `classify` (`ClassifyLine` in the source's case). */
  function ParseLines(classify: string -> Result<Line>, st: ParseState, lines: seq<string>): Result<ParseState>
  {
    if lines == [] then Ok(st)
    else
      var before := ParseLines(classify, st, lines[..|lines| - 1]);
      if before.Err? then before else Step(before.value, classify(lines[|lines| - 1]))
  }

  /* ---------- what the parse means ---------- */

  predicate IsHeader(c: Result<Line>)
  {
    c.Ok? && c.value.HeaderLine?
  }

  /** The header of the last header line of `lines`, or `current` if there
      is none. */
  function LastHeader(classify: string -> Result<Line>, lines: seq<string>, current: Option<Triggerable>): Option<Triggerable>
  {
    if lines == [] then current
    else
      var c := classify(lines[|lines| - 1]);
      if IsHeader(c) then Some(c.value.header) else LastHeader(classify, lines[..|lines| - 1], current)
  }

  /** The triggers of the trigger lines of `lines`, each with the header
      most recently seen before it. */
  function Attached(classify: string -> Result<Line>, lines: seq<string>, current: Option<Triggerable>): seq<Trigger>
  {
    if lines == [] then []
    else
      var front := lines[..|lines| - 1];
      var c := classify(lines[|lines| - 1]);
      Attached(classify, front, current)
      + (if c.Ok? && c.value.TriggerLine? then [c.value.trigger.(triggerable := LastHeader(classify, front, current))] else [])
  }

  predicate AllLinesParse(classify: string -> Result<Line>, lines: seq<string>)
  {
    forall j :: 0 <= j < |lines| ==> classify(lines[j]).Ok?
  }

  /** With no header line, the incoming header stays in force. */
  lemma {:induction false} NoHeaderKeepsCurrent(classify: string -> Result<Line>, lines: seq<string>, current: Option<Triggerable>)
    requires forall j :: 0 <= j < |lines| ==> !IsHeader(classify(lines[j]))
    ensures LastHeader(classify, lines, current) == current
  {
    if lines != [] {
      var front := lines[..|lines| - 1];
      assert forall j :: 0 <= j < |front| ==> front[j] == lines[j];
      NoHeaderKeepsCurrent(classify, front, current);
    }
  }

  /** Line `j`, a header with no header after it, is the one in force. */
  lemma {:induction false} LatestHeaderInForce(classify: string -> Result<Line>, lines: seq<string>, current: Option<Triggerable>, j: nat)
    requires j < |lines| && IsHeader(classify(lines[j]))
    requires forall k :: j < k < |lines| ==> !IsHeader(classify(lines[k]))
    ensures LastHeader(classify, lines, current) == Some(classify(lines[j]).value.header)
  {
    if j < |lines| - 1 {
      var front := lines[..|lines| - 1];
      assert forall k :: 0 <= k < |front| ==> front[k] == lines[k];
      LatestHeaderInForce(classify, front, current, j);
    }
  }

  /** The header in force is the one of the latest header line, or the
      incoming one when the lines hold no header. */
  lemma LastHeaderIsMostRecent(classify: string -> Result<Line>, lines: seq<string>, current: Option<Triggerable>)
    ensures (forall j :: 0 <= j < |lines| ==> !IsHeader(classify(lines[j])))
      ==> LastHeader(classify, lines, current) == current
    ensures forall j ::
      (0 <= j < |lines| && IsHeader(classify(lines[j]))
      && (forall k :: j < k < |lines| ==> !IsHeader(classify(lines[k]))))
      ==> LastHeader(classify, lines, current) == Some(classify(lines[j]).value.header)
  {
    if forall j :: 0 <= j < |lines| ==> !IsHeader(classify(lines[j])) {
      NoHeaderKeepsCurrent(classify, lines, current);
    }
    forall j | 0 <= j < |lines| && IsHeader(classify(lines[j])) && (forall k :: j < k < |lines| ==> !IsHeader(classify(lines[k])))
      ensures LastHeader(classify, lines, current) == Some(classify(lines[j]).value.header)
    {
      LatestHeaderInForce(classify, lines, current, j);
    }
  }

  /** Without malformed lines, parsing appends the attached triggers and
      leaves the last header in force. */
  lemma {:induction false} ParseLinesAttaches(classify: string -> Result<Line>, st: ParseState, lines: seq<string>)
    requires AllLinesParse(classify, lines)
    ensures ParseLines(classify, st, lines)
      == Ok(ParseState(st.triggers + Attached(classify, lines, st.triggerable), LastHeader(classify, lines, st.triggerable)))
  {
    if lines != [] {
      var front := lines[..|lines| - 1];
      assert AllLinesParse(classify, front) by {
        assert forall j :: 0 <= j < |front| ==> front[j] == lines[j];
      }
      ParseLinesAttaches(classify, st, front);
      var c := classify(lines[|lines| - 1]);
      assert c.Ok?;
      var header := LastHeader(classify, front, st.triggerable);
      var before := ParseState(st.triggers + Attached(classify, front, st.triggerable), header);
      assert ParseLines(classify, st, lines) == Step(before, c);
      match c.value {
        case HeaderLine(h) =>
          assert Attached(classify, lines, st.triggerable) == Attached(classify, front, st.triggerable);
        case TriggerLine(t) =>
          assert Attached(classify, lines, st.triggerable) == Attached(classify, front, st.triggerable) + [t.(triggerable := header)];
          assert (st.triggers + Attached(classify, front, st.triggerable)) + [t.(triggerable := header)]
            == st.triggers + (Attached(classify, front, st.triggerable) + [t.(triggerable := header)]);
        case OtherLine =>
          assert Attached(classify, lines, st.triggerable) == Attached(classify, front, st.triggerable);
      }
    } else {
      assert st.triggers + [] == st.triggers;
    }
  }

  /** Parsing fails exactly when some line is malformed. */
  lemma {:induction false} ParseLinesFails(classify: string -> Result<Line>, st: ParseState, lines: seq<string>)
    ensures ParseLines(classify, st, lines).Err? <==> !AllLinesParse(classify, lines)
  {
    if lines != [] {
      var front := lines[..|lines| - 1];
      ParseLinesFails(classify, st, front);
      assert forall j :: 0 <= j < |front| ==> front[j] == lines[j];
      if AllLinesParse(classify, lines) {
        assert AllLinesParse(classify, front);
      } else if AllLinesParse(classify, front) {
        assert !classify(lines[|lines| - 1]).Ok?;
      }
    }
  }

  /** Once a prefix fails, the whole parse fails the same way. */
  lemma {:induction false} ParseLinesAfterFailure(classify: string -> Result<Line>, st: ParseState, lines: seq<string>, n: nat)
    requires n <= |lines| && ParseLines(classify, st, lines[..n]).Err?
    ensures ParseLines(classify, st, lines) == ParseLines(classify, st, lines[..n])
    decreases |lines| - n
  {
    if n < |lines| {
      assert lines[..n + 1][..n] == lines[..n];
      ParseLinesAfterFailure(classify, st, lines, n + 1);
    } else {
      assert lines[..n] == lines;
    }
  }

  /** Parsing two blocks of lines in a row is parsing them as one: the
      header in force carries over from one block to the next. */
  lemma {:induction false} ParseLinesAppend(classify: string -> Result<Line>, st: ParseState, a: seq<string>, b: seq<string>)
    ensures ParseLines(classify, st, a + b)
      == (var s := ParseLines(classify, st, a); if s.Err? then s else ParseLines(classify, s.value, b))
  {
    if b == [] {
      assert a + b == a;
    } else {
      assert (a + b)[..|a + b| - 1] == a + b[..|b| - 1];
      ParseLinesAppend(classify, st, a, b[..|b| - 1]);
    }
  }

  /* ---------- getTriggers ---------- */

  /** The lines of one MQL output. */
  function OutputLines(output: string): seq<string>
  {
    SplitAny(output, {'\n'})
  }

  /** The outer loop of `getTriggers` over the commands: run each, then parse
      its lines with the header carried over. */
  function Collect(classify: string -> Result<Line>, st: ParseState, commands: seq<string>, mql: string -> Result<string>): Result<ParseState>
  {
    if commands == [] then Ok(st)
    else
      var before := Collect(classify, st, commands[..|commands| - 1], mql);
      if before.Err? then before
      else
        var output := mql(commands[|commands| - 1]);
        if output.Err? then Err(output.error) else ParseLines(classify, before.value, OutputLines(output.value))
  }

  /** The lines of all outputs, in command order. */
  function AllLines(commands: seq<string>, mql: string -> Result<string>): seq<string>
  {
    if commands == [] then []
    else
      var output := mql(commands[|commands| - 1]);
      AllLines(commands[..|commands| - 1], mql) + (if output.Ok? then OutputLines(output.value) else [])
  }

  /** When every command answers, the outputs are parsed as one stream of
      lines: a trigger line at the top of one admin type's output gets the
      last header of the previous one. */
  lemma {:induction false} CollectParsesAllLines(classify: string -> Result<Line>, st: ParseState, commands: seq<string>, mql: string -> Result<string>)
    requires forall c :: c in commands ==> mql(c).Ok?
    ensures Collect(classify, st, commands, mql) == ParseLines(classify, st, AllLines(commands, mql))
  {
    if commands != [] {
      var front := commands[..|commands| - 1];
      assert forall c :: c in front ==> c in commands;
      CollectParsesAllLines(classify, st, front, mql);
      ParseLinesAppend(classify, st, AllLines(front, mql), OutputLines(mql(commands[|commands| - 1]).value));
    }
  }

  lemma {:induction false} CollectAfterFailure(classify: string -> Result<Line>, st: ParseState, commands: seq<string>, mql: string -> Result<string>, n: nat)
    requires n <= |commands| && Collect(classify, st, commands[..n], mql).Err?
    ensures Collect(classify, st, commands, mql) == Collect(classify, st, commands[..n], mql)
    decreases |commands| - n
  {
    if n < |commands| {
      assert commands[..n + 1][..n] == commands[..n];
      CollectAfterFailure(classify, st, commands, mql, n + 1);
    } else {
      assert commands[..n] == commands;
    }
  }

  /** `getTriggers`: the triggers of every admin type's listing, in order;
      a failing MQL command or a malformed line ends the search with its
      exception. */
  method GetTriggers(includeInherited: bool, mql: string -> Result<string>) returns (r: Result<seq<Trigger>>)
    ensures var c := Collect(ClassifyLine, ParseState([], None), Commands(includeInherited), mql);
      (c.Ok? ==> r == Ok(c.value.triggers)) && (c.Err? ==> r == Err(c.error))
  {
    var parsed := CollectOutputs(ClassifyLine, Commands(includeInherited), mql);
    if parsed.Err? {
      return Err(parsed.error);
    }
    return Ok(parsed.value.triggers);
  }

  /** The admin type loop of `getTriggers`: run each command, then parse its
      lines with the header in force carried over from the previous output. */
  method CollectOutputs(classify: string -> Result<Line>, commands: seq<string>, mql: string -> Result<string>)
    returns (r: Result<ParseState>)
    ensures r == Collect(classify, ParseState([], None), commands, mql)
  {
    ghost var start := ParseState([], None);
    var triggers: seq<Trigger> := [];
    var triggerable: Option<Triggerable> := None;
    for k := 0 to |commands|
      invariant Collect(classify, start, commands[..k], mql) == Ok(ParseState(triggers, triggerable))
    {
      assert commands[..k + 1][..k] == commands[..k];
      var s := mql(commands[k]);
      if s.Err? {
        CollectAfterFailure(classify, start, commands, mql, k + 1);
        return Err(s.error);
      }
      var lines := OutputLines(s.value);
      var parsed := ParseOutput(classify, lines, ParseState(triggers, triggerable));
      if parsed.Err? {
        CollectAfterFailure(classify, start, commands, mql, k + 1);
        return Err(parsed.error);
      }
      triggers, triggerable := parsed.value.triggers, parsed.value.triggerable;
    }
    assert commands[..|commands|] == commands;
    return Ok(ParseState(triggers, triggerable));
  }

  /** The line loop of `getTriggers`: each line classified, a header line
      replacing the header in force, a trigger line appending its trigger
      with that header; a malformed line ends the loop with its exception. */
  method ParseOutput(classify: string -> Result<Line>, lines: seq<string>, st: ParseState) returns (r: Result<ParseState>)
    ensures r == ParseLines(classify, st, lines)
  {
    var triggers, triggerable := st.triggers, st.triggerable;
    for j := 0 to |lines|
      invariant ParseLines(classify, st, lines[..j]) == Ok(ParseState(triggers, triggerable))
    {
      assert lines[..j + 1][..j] == lines[..j];
      var c := classify(lines[j]);
      if c.Err? {
        ParseLinesAfterFailure(classify, st, lines, j + 1);
        return Err(c.error);
      }
      match c.value {
        case HeaderLine(h) =>
          triggerable := Some(h);
        case TriggerLine(t) =>
          triggers := triggers + [t.(triggerable := triggerable)];
        case OtherLine =>
      }
    }
    assert lines[..|lines|] == lines;
    return Ok(ParseState(triggers, triggerable));
  }

  /* ---------- showMissingTriggers ---------- */

  /** The report line for a trigger whose program-parameters name `parameter`
      has no object: admin type, name, state, event, program and the name,
      tab separated. A trigger parsed before any header has no triggerable,
      and reading its type raises a NullPointerException. */
  function MissingLine(t: Trigger, parameter: string): Result<string>
  {
    if t.triggerable.None? then Err(NullPointer)
    else
      var on := t.triggerable.value;
      Ok(on.adminType + "\t" + on.name + "\t" + t.state + "\t" + t.event + "\t" + t.program + "\t" + parameter)
  }

  /** The names the cache holds no list for. */
  function Missing(cache: ParameterCache): string -> bool
  {
    name => name !in cache
  }

  /** The inner loop of the report over the names of one trigger. */
  function ParameterLines(t: Trigger, names: seq<string>, cache: ParameterCache): Result<seq<string>>
  {
    if names == [] then Ok([])
    else
      var before := ParameterLines(t, names[..|names| - 1], cache);
      var name := names[|names| - 1];
      if before.Err? || name in cache then before
      else
        var line := MissingLine(t, name);
        if line.Err? then Err(line.error) else Ok(before.value + [line.value])
  }

  /** The outer loop of the report over the triggers. */
  function MissingLines(triggers: seq<Trigger>, cache: ParameterCache): Result<seq<string>>
  {
    if triggers == [] then Ok([])
    else
      var before := MissingLines(triggers[..|triggers| - 1], cache);
      if before.Err? then before
      else
        var t := triggers[|triggers| - 1];
        var lines := ParameterLines(t, t.parameters, cache);
        if lines.Err? then lines else Ok(before.value + lines.value)
  }

  /** The number of (trigger, name) pairs, which is the number of lookups. */
  function ParameterCount(triggers: seq<Trigger>): nat
  {
    if triggers == [] then 0 else ParameterCount(triggers[..|triggers| - 1]) + |triggers[|triggers| - 1].parameters|
  }

  /** The number of (trigger, name) pairs whose name the cache lacks. */
  function MissingCount(triggers: seq<Trigger>, cache: ParameterCache): nat
  {
    if triggers == [] then 0
    else
      var last := triggers[|triggers| - 1];
      MissingCount(triggers[..|triggers| - 1], cache) + |FilteredLists.Filtered(last.parameters, Missing(cache))|
  }

  /** One trigger contributes one line per missing name, in name order, and
      fails exactly when it has a missing name but no triggerable. */
  lemma {:induction false} ParameterLinesMeaning(t: Trigger, names: seq<string>, cache: ParameterCache)
    ensures var missing, lines := FilteredLists.Filtered(names, Missing(cache)), ParameterLines(t, names, cache);
      && (lines.Err? <==> t.triggerable.None? && missing != [])
      && (lines.Err? ==> lines.error == NullPointer)
      && (lines.Ok? ==>
            |lines.value| == |missing|
            && forall k :: 0 <= k < |missing| ==> MissingLine(t, missing[k]) == Ok(lines.value[k]))
  {
    if names != [] {
      var front := names[..|names| - 1];
      ParameterLinesMeaning(t, front, cache);
      var missing0 := FilteredLists.Filtered(front, Missing(cache));
      var missing := FilteredLists.Filtered(names, Missing(cache));
      assert missing0 == [] ==> t.triggerable.None? ==> ParameterLines(t, front, cache) == Ok([]);
      if names[|names| - 1] in cache {
        assert missing == missing0;
      } else {
        assert missing == missing0 + [names[|names| - 1]];
      }
    }
  }

  /** The report fails exactly when some trigger without a triggerable has a
      missing name; otherwise it has one line per missing (trigger, name)
      pair. */
  lemma {:induction false} MissingLinesMeaning(triggers: seq<Trigger>, cache: ParameterCache)
    ensures var lines := MissingLines(triggers, cache);
      && (lines.Err? <==>
            exists i :: 0 <= i < |triggers| && triggers[i].triggerable.None?
              && FilteredLists.Filtered(triggers[i].parameters, Missing(cache)) != [])
      && (lines.Err? ==> lines.error == NullPointer)
      && (lines.Ok? ==> |lines.value| == MissingCount(triggers, cache))
  {
    if triggers != [] {
      var front := triggers[..|triggers| - 1];
      var t := triggers[|triggers| - 1];
      MissingLinesMeaning(front, cache);
      ParameterLinesMeaning(t, t.parameters, cache);
      assert forall i :: 0 <= i < |front| ==> front[i] == triggers[i];
      if !MissingLines(triggers, cache).Err? {
        forall i | 0 <= i < |triggers|
          ensures !(triggers[i].triggerable.None? && FilteredLists.Filtered(triggers[i].parameters, Missing(cache)) != [])
        {
          if i == |triggers| - 1 {
            assert triggers[i] == t;
          }
        }
      }
    }
  }

  /** Triggers without names make no lookups and no lines. */
  lemma {:induction false} NoParametersNoLines(triggers: seq<Trigger>, cache: ParameterCache)
    requires ParameterCount(triggers) == 0
    ensures MissingLines(triggers, cache) == Ok([])
  {
    if triggers != [] {
      NoParametersNoLines(triggers[..|triggers| - 1], cache);
      var t := triggers[|triggers| - 1];
      assert t.parameters == [] && ParameterLines(t, t.parameters, cache) == Ok([]);
      var none: seq<string> := [];
      assert none + none == none;
    }
  }

  lemma {:induction false} ParameterLinesAfterFailure(t: Trigger, names: seq<string>, cache: ParameterCache, n: nat)
    requires n <= |names| && ParameterLines(t, names[..n], cache).Err?
    ensures ParameterLines(t, names, cache) == ParameterLines(t, names[..n], cache)
    decreases |names| - n
  {
    if n < |names| {
      assert names[..n + 1][..n] == names[..n];
      ParameterLinesAfterFailure(t, names, cache, n + 1);
    } else {
      assert names[..n] == names;
    }
  }

  lemma {:induction false} MissingLinesAfterFailure(triggers: seq<Trigger>, cache: ParameterCache, n: nat)
    requires n <= |triggers| && MissingLines(triggers[..n], cache).Err?
    ensures MissingLines(triggers, cache) == MissingLines(triggers[..n], cache)
    decreases |triggers| - n
  {
    if n < |triggers| {
      assert triggers[..n + 1][..n] == triggers[..n];
      MissingLinesAfterFailure(triggers, cache, n + 1);
    } else {
      assert triggers[..n] == triggers;
    }
  }

  /** The report: the lines for the missing names and the count printed
      after them. */
  datatype MissingReport = MissingReport(lines: seq<string>, count: nat)

  function ReportOf(lines: Result<seq<string>>): Result<MissingReport>
  {
    if lines.Err? then Err(lines.error) else Ok(MissingReport(lines.value, |lines.value|))
  }

  /** What the first lookup leaves in the cache: a load when it is empty. */
  function Loaded(cache: ParameterCache, db: TriggerCache.Database): TriggerCache.Population
  {
    if cache == map[] then TriggerCache.Populate(map[], db) else TriggerCache.Population(cache, false)
  }

  /** Every lookup after a successful first one sees the same cache. */
  lemma LoadedAgain(cache: ParameterCache, db: TriggerCache.Database)
    requires !Loaded(cache, db).failed
    ensures Loaded(Loaded(cache, db).cache, db) == Loaded(cache, db)
  {
  }

  /** The outcome of the report: without names the cache is not consulted;
      otherwise the first lookup loads it, a failed load surfacing as a
      MatrixAccessException, and the lines are those of the loaded cache. */
  ghost predicate Reported(before: ParameterCache, after: ParameterCache, db: TriggerCache.Database,
                           triggers: seq<Trigger>, r: Result<MissingReport>)
  {
    var p := Loaded(before, db);
    && (ParameterCount(triggers) == 0 ==> after == before && r == Ok(MissingReport([], 0)))
    && (ParameterCount(triggers) > 0 && p.failed ==> r == Err(MatrixAccess))
    && (ParameterCount(triggers) > 0 && !p.failed ==> after == p.cache && r == ReportOf(MissingLines(triggers, p.cache)))
  }

  /** One step of the inner loop of the report: `name` looked up in the
      cache, and the line for it when the cache has no list for it. */
  method ReportName(cache: TriggerCache.TriggerProgramParametersCache, db: TriggerCache.Database, t: Trigger, name: string,
                    ghost before: ParameterCache, ghost p: TriggerCache.Population, ghost looked0: bool)
    returns (r: Result<Option<string>>)
    requires TriggerCache.WellFormedDatabase(db) && p == Loaded(before, db)
    requires !looked0 ==> cache.cache == before
    requires looked0 ==> cache.cache == p.cache && !p.failed
    modifies cache
    ensures p.failed ==> r == Err(MatrixAccess)
    ensures !p.failed ==> cache.cache == p.cache
    ensures !p.failed && name in p.cache ==> r == Ok(None)
    ensures !p.failed && name !in p.cache ==>
      r == (var line := MissingLine(t, name); if line.Err? then Err(line.error) else Ok(Some(line.value)))
  {
    assert Loaded(cache.cache, db) == p by {
      if looked0 { LoadedAgain(before, db); }
    }
    var l := cache.GetTriggerProgramParameters(db, name);
    if l.Err? {
      return Err(MatrixAccess);
    }
    if l.value.Some? {
      return Ok(None);
    }
    var line := MissingLine(t, name);
    if line.Err? {
      return Err(line.error);
    }
    return Ok(Some(line.value));
  }

  /** The inner loop of the report, for one trigger: its names looked up in
      the cache one by one, a line collected for each name the cache has no
      list for. `looked0` says whether an earlier lookup already ran. */
  method ReportParameters(cache: TriggerCache.TriggerProgramParametersCache, db: TriggerCache.Database, t: Trigger,
                          ghost before: ParameterCache, ghost p: TriggerCache.Population, ghost looked0: bool)
    returns (r: Result<seq<string>>, ghost looked: bool)
    requires TriggerCache.WellFormedDatabase(db) && p == Loaded(before, db)
    requires !looked0 ==> cache.cache == before
    requires looked0 ==> cache.cache == p.cache && !p.failed
    modifies cache
    ensures looked <==> looked0 || t.parameters != []
    ensures !looked ==> cache.cache == before && r == Ok([])
    ensures looked && p.failed ==> r == Err(MatrixAccess)
    ensures looked && !p.failed ==> cache.cache == p.cache
    ensures !p.failed ==> r == ParameterLines(t, t.parameters, p.cache)
  {
    looked := looked0;
    var lines: seq<string> := [];
    for j := 0 to |t.parameters|
      invariant looked <==> looked0 || j > 0
      invariant !looked ==> cache.cache == before
      invariant looked ==> cache.cache == p.cache && !p.failed
      invariant ParameterLines(t, t.parameters[..j], p.cache) == Ok(lines)
    {
      assert t.parameters[..j + 1][..j] == t.parameters[..j];
      var x := ReportName(cache, db, t, t.parameters[j], before, p, looked);
      looked := true;
      if x.Err? {
        if !p.failed {
          ParameterLinesAfterFailure(t, t.parameters, p.cache, j + 1);
        }
        return Err(x.error), looked;
      }
      if x.value.Some? {
        lines := lines + [x.value.value];
      }
      assert ParameterLines(t, t.parameters[..j + 1], p.cache) == Ok(lines);
    }
    assert t.parameters[..|t.parameters|] == t.parameters;
    return Ok(lines), looked;
  }

  /** The report loop of `showMissingTriggers`: each name of each trigger
      looked up in the trigger program parameters cache, a line collected
      for each name the cache has no list for. */
  method ReportMissing(cache: TriggerCache.TriggerProgramParametersCache, db: TriggerCache.Database, triggers: seq<Trigger>)
    returns (r: Result<MissingReport>)
    requires TriggerCache.WellFormedDatabase(db)
    modifies cache
    ensures Reported(old(cache.cache), cache.cache, db, triggers, r)
  {
    ghost var before := cache.cache;
    ghost var p := Loaded(before, db);
    ghost var looked := false;
    var output: seq<string> := [];
    for i := 0 to |triggers|
      invariant looked <==> ParameterCount(triggers[..i]) > 0
      invariant !looked ==> cache.cache == before
      invariant looked ==> cache.cache == p.cache && !p.failed
      invariant MissingLines(triggers[..i], p.cache) == Ok(output)
    {
      assert triggers[..i + 1][..i] == triggers[..i];
      var lines;
      lines, looked := ReportParameters(cache, db, triggers[i], before, p, looked);
      if lines.Err? {
        assert ParameterCount(triggers) > 0 by { PrefixCount(triggers, i + 1); }
        if !p.failed {
          MissingLinesAfterFailure(triggers, p.cache, i + 1);
        }
        return Err(lines.error);
      }
      output := output + lines.value;
    }
    assert triggers[..|triggers|] == triggers;
    if !looked {
      NoParametersNoLines(triggers, p.cache);
    }
    return Ok(MissingReport(output, |output|));
  }


  /** A prefix has no more names than the whole. */
  lemma {:induction false} PrefixCount(triggers: seq<Trigger>, n: nat)
    requires n <= |triggers|
    ensures ParameterCount(triggers[..n]) <= ParameterCount(triggers)
    decreases |triggers| - n
  {
    if n < |triggers| {
      assert triggers[..n + 1][..n] == triggers[..n];
      PrefixCount(triggers, n + 1);
    } else {
      assert triggers[..n] == triggers;
    }
  }

  /** `showMissingTriggers`: the triggers with only their immediate
      definitions on types and relationships, then the report on them. */
  method ShowMissingTriggers(cache: TriggerCache.TriggerProgramParametersCache, db: TriggerCache.Database,
                             mql: string -> Result<string>) returns (r: Result<MissingReport>)
    requires TriggerCache.WellFormedDatabase(db)
    modifies cache
    ensures var c := Collect(ClassifyLine, ParseState([], None), Commands(false), mql);
      && (c.Err? ==> r == Err(c.error) && cache.cache == old(cache.cache))
      && (c.Ok? ==> Reported(old(cache.cache), cache.cache, db, c.value.triggers, r))
  {
    var triggers := GetTriggers(false, mql);
    if triggers.Err? {
      return Err(triggers.error);
    }
    r := ReportMissing(cache, db, triggers.value);
  }
}
