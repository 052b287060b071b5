# enovia-profiler core in Dafny

This project models the profiling engine of the MRI profiler for the ENOVIA
(eMatrix) platform, and proves properties about it. An AspectJ aspect
(`MRIAspect`) wraps JPO calls, MQL commands, JSP pages and API calls. Each
wrapped call becomes an `ExecutionNode` with a `DefaultStopWatch`.

`MRIProfiler` does the bookkeeping:

- It pushes every node on its thread's execution stack. The first push of a
  thread starts a new call tree under a ROOT node.
- It lists every node under its identity (type, name, method).
- It counts triggers, triggers that have no program parameters, and the time
  spent starting trigger managers.

`MRIReportWriter` turns this record into a report:

- It writes each node's net time (its elapsed time minus its children's).
- It flattens each thread's tree into a pre-order stack trace.
- It builds per-method summaries, sorted by total net time.
- It lists the triggers, active and inactive.

The trigger definitions come from `TriggerProgramParametersCache`. That cache
is filled lazily from one database query. It groups the definitions by name
and sorts each group with `TriggerProgramParameters.compareTo`.

Supporting structures are modelled as well:

- the append-only tree (`DefaultTreeNode` and `AbstractTreeNode`) with its
  pre-order and depth-first iterators;
- `UnsynchronizedStack`;
- `Strings.valueOf`;
- `FilteredList`;
- the parser of the missing-trigger finder;
- the computing parts of the report viewer.

Modelling choices:

- **Clock.** `System.nanoTime` is a `now` parameter of every stopwatch
  operation. The aspect's advice gets the times at which the advised call
  starts and returns. `createReport` reads every stopwatch at one `now`,
  while the source calls `System.nanoTime` again on each `getElapsedTime`;
  `ReportWriter.StackTraceAddsUp` holds for a watch that is still running
  only because of that single reading.
- **Threads.** A thread is its id, passed explicitly. Everything runs
  sequentially.
- **Tree nodes.** Nodes live in an arena (`Trees.Forest`). A node is its
  index, its parent has a smaller index, and its children are listed in the
  order they were added.
- **Exceptions.** An operation that throws returns `Result`/`Outcome` values
  naming the Java exception.
- **Database.** The database (the bulk query, and MQL commands) is a function
  from command text to output or failure.
- **Java collections.**
  - A `HashMap` whose iteration order matters becomes an entry list in
    first-insertion order.
  - A `TreeMap` built from a map becomes its ascending entry list, built by
    repeated `put`.
  - `Collections.sort` is a stable insertion sort that only asks whether one
    element belongs after another, which is the legacy merge sort's result.
- **Java arithmetic.**
  - `long` division truncates toward zero (`ReportWriter.Quot`).
  - String and node hash codes wrap to 32 bits (`JavaStrings.Int32`).
  - `Float.valueOf` on sequence numbers is an exact decimal parser that
    keeps the sign of zero and accepts a type suffix (`JavaFloats`).

Two details of the code that are easy to miss:

- A thread root's direct children are at `getLevel` 1, and that is their
  depth in a stack trace.
- `pop` also removes the ROOT sentinel. After n pushes and n pops only the
  root remains, and one more `pop` empties the stack.

## Model

| member | source | states |
|---|---|---|
| Aspect.TclProgramName | src/com/highbar/tools/mri/aspects/MRIAspect.java:318-327 | fails with an index exception exactly when the command holds fewer than two single quotes; otherwise the result is the last quoted value, opening quote included, followed in the command by the last quote |
| Aspect.LastQuotedUnique | src/com/highbar/tools/mri/aspects/MRIAspect.java:318-327 | a command has only one last quoted value, so the program name is determined by the command |
| Aspect.TclProgramNameOfCommand | src/com/highbar/tools/mri/aspects/MRIAspect.java:318-327 | for a trigger wrapper command ending in a quoted program name, the name (with its opening quote) comes back |
| Aspect.GetTCLProgramName | src/com/highbar/tools/mri/aspects/MRIAspect.java:318-327 | the StringBuilder deletions compute TclProgramName, the error included |
| Aspect.JspName | src/com/highbar/tools/mri/aspects/MRIAspect.java:329-335 | fails when the class name is shorter than the package prefix plus four characters; otherwise the result is the class name without the prefix, dots turned into slashes, with a dot four characters from the end |
| Aspect.JspNameOfPage | src/com/highbar/tools/mri/aspects/MRIAspect.java:329-335 | a compiled page class org.apache.jsp.<path>_jsp names the page /<path with slashes>.jsp |
| Aspect.GetJSPName | src/com/highbar/tools/mri/aspects/MRIAspect.java:329-335 | computes JspName |
| Aspect.MethodName | src/com/highbar/tools/mri/aspects/MRIAspect.java:337-349 | the method text is a suffix of the signature, with no more cut off than the return type, the space, the type name and its dot |
| Aspect.MethodNameOfSignature | src/com/highbar/tools/mri/aspects/MRIAspect.java:337-349 | for a signature "<ret> <type>.<rest>" the result is exactly <rest> |
| Aspect.GetMethod | src/com/highbar/tools/mri/aspects/MRIAspect.java:337-349 | computes MethodName |
| Aspect.GetJPOName | src/com/highbar/tools/mri/aspects/MRIAspect.java:351-354 | fails exactly when the class name lacks "_mxJPO"; otherwise the result is the prefix before the first occurrence |
| Aspect.JPONameOfClass | src/com/highbar/tools/mri/aspects/MRIAspect.java:351-354 | a generated class <name>_mxJPO<rest> with no underscore in <name> gives back <name> |
| Aspect.JpoNodeType | src/com/highbar/tools/mri/aspects/MRIAspect.java:198-216 | the trigger manager's JPO is TRIGGER_MANAGER whatever the profiler says; otherwise JAVA_TRIGGER or JPO as isJavaTrigger answers, and its exception passed on; each case in both directions |
| Aspect.Proceed | src/com/highbar/tools/mri/aspects/MRIAspect.java:268-285 | the node is listed under its identity and pushed; its watch runs once from the start to the stop time; the thread's stack ends as before; the advised call's outcome is returned; an emptied stack throws before timing |
| Aspect.GetExecutionNode | src/com/highbar/tools/mri/aspects/MRIAspect.java:259-266 | a new node with the given type, the declaring type as name, the method text of the signature, the arguments and the thread, its watch new and stopped |
| Aspect.MxAPI | src/com/highbar/tools/mri/aspects/MRIAspect.java:131-135 | an MX_API node built by getExecutionNode goes through Proceed |
| Aspect.LgeAPI | src/com/highbar/tools/mri/aspects/MRIAspect.java:143-147 | an LG_CNS_API node built by getExecutionNode goes through Proceed |
| Aspect.JpoSupportNewInstance | src/com/highbar/tools/mri/aspects/MRIAspect.java:156-182 | instantiating the trigger manager appends one new watch to the overhead list, run once over the call; any other instantiation leaves the list as it was; the call's outcome is passed on and the trees are untouched |
| Aspect.TriggerManagerMqlCommand | src/com/highbar/tools/mri/aspects/MRIAspect.java:243-257 | a trigger wrapper command is timed as a TCL_TRIGGER node named by TclProgramName with method "-" and no arguments; a wrapper command without a program name throws before recording; a null or other command runs unrecorded |
| Aspect.JspService | src/com/highbar/tools/mri/aspects/MRIAspect.java:227-234 | a JSP node named by JspName with method jsp_service goes through Proceed; a class name too short for JspName throws before recording |
| Aspect.MissingNames | src/com/highbar/tools/mri/aspects/MRIAspect.java:296-304 | a name is among the missing exactly when it was named and the cache holds no list for it |
| Aspect.CachedTriggers | src/com/highbar/tools/mri/aspects/MRIAspect.java:296-311 | holds every cached trigger of every named name, and only those |
| Aspect.MissingNamesCount | src/com/highbar/tools/mri/aspects/MRIAspect.java:296-304 | an uncached name is counted missing once per time it is named; a cached one never |
| Aspect.RegisterTriggers | src/com/highbar/tools/mri/aspects/MRIAspect.java:287-316 | profiling is off during the lookups and restored after them; uncached names are recorded missing and the triggers of cached ones recorded, in order; a failed cache load throws, records nothing and leaves profiling off |
| Aspect.RegisteredStep | src/com/highbar/tools/mri/aspects/MRIAspect.java:296-312 | one more name adds itself to the missing list or its cached triggers to the trigger list |
| Aspect.LookupsStable | src/com/highbar/tools/mri/aspects/MRIAspect.java:298-299 | once the cache has loaded, further lookups find the same cache |
| Aspect.RegisterTrigger | src/com/highbar/tools/mri/aspects/MRIAspect.java:298-311 | one name of the loop: a failed load throws and records nothing; otherwise the name is recorded missing, or its cached triggers recorded |
| Aspect.AddTriggers | src/com/highbar/tools/mri/aspects/MRIAspect.java:307-310 | every trigger of a list is recorded, in order, and nothing else changes |
| Aspect.JpoMethod | src/com/highbar/tools/mri/aspects/MRIAspect.java:191-219 | a class name without "_mxJPO" throws before anything changes; otherwise the node is classified by JpoNodeType, mxMain of the trigger manager registering its triggers first, and timed by Proceed; a failed registration or isJavaTrigger throws untimed |
| Aspect.JpoCall | src/com/highbar/tools/mri/aspects/MRIAspect.java:196-218 | jpo_method once the JPO name and method are known: registration, classification and Proceed as in JpoMethod |
| Aspect.JpoExecutionNode | src/com/highbar/tools/mri/aspects/MRIAspect.java:196-216 | the node jpo_method builds: registration for mxMain of the trigger manager, then a new node of the type JpoNodeType gives, with the call's name, method, arguments and thread; nothing recorded in the trees |
| ExecutionNodes.Ordinal | src/com/highbar/tools/mri/monitor/ExecutionNode.java:25-44 | the declaration position of a node type, below the ten constants |
| ExecutionNodes.OrdinalInjective | src/com/highbar/tools/mri/monitor/ExecutionNode.java:25-44 | two node types share a position only when they are the same constant, so the enum order is total |
| ExecutionNodes.DisplayStringsShared | src/com/highbar/tools/mri/monitor/ExecutionNode.java:27-44 | two node types show the same display string exactly when they are equal or are a deprecated constant and its replacement (API with MX_API, TRIGGER with JAVA_TRIGGER) |
| ExecutionNodes.Equals | src/com/highbar/tools/mri/monitor/ExecutionNode.java:150-166 | two nodes are equal exactly when the other is present and type, name and method agree, nulls counting as equal to each other |
| ExecutionNodes.CompareTo | src/com/highbar/tools/mri/monitor/ExecutionNode.java:122-147 | 1 against a null node; the difference of positions when the types differ; 0 exactly when equal for nodes with a name and a method |
| ExecutionNodes.CompareToAntisymmetric | src/com/highbar/tools/mri/monitor/ExecutionNode.java:122-147 | comparing two nodes both ways gives opposite signs |
| ExecutionNodes.CompareToTransitive | src/com/highbar/tools/mri/monitor/ExecutionNode.java:122-147 | the order is transitive on nodes with a name and a method |
| ExecutionNodes.HashCode | src/com/highbar/tools/mri/monitor/ExecutionNode.java:169-175 | a 32-bit value computed with 31-fold wrap-around |
| ExecutionNodes.HashCodeAgreesWithEquals | src/com/highbar/tools/mri/monitor/ExecutionNode.java:150-175 | equal nodes have equal hash codes |
| ExecutionNodes.ExecutionNode.constructor | src/com/highbar/tools/mri/monitor/ExecutionNode.java:62-70 | the given type, name, method and arguments, the calling thread, a new stopped watch and no net time |
| ExecutionNodes.ExecutionNode.FromJPO | src/com/highbar/tools/mri/monitor/ExecutionNode.java:57-60 | the node of a JPO call takes the call's name, method and arguments |
| ExecutionNodes.ExecutionNode.SetMethod | src/com/highbar/tools/mri/monitor/ExecutionNode.java:87-90 | replaces the method and nothing else |
| ExecutionNodes.ExecutionNode.SetParameters | src/com/highbar/tools/mri/monitor/ExecutionNode.java:97-100 | replaces the arguments and nothing else |
| ExecutionNodes.ExecutionNode.SetNetTime | src/com/highbar/tools/mri/monitor/ExecutionNode.java:117-120 | replaces the net time and nothing else |
| JavaFloats.ParseFloat | dist/mri-0.0.0.9/src/com/highbar/tools/trigger/cache/TriggerProgramParameters.java:241-242 | `Float.valueOf` on a plain decimal: only a zero can be the negative zero |
| JavaFloats.Compare | dist/mri-0.0.0.9/src/com/highbar/tools/trigger/cache/TriggerProgramParameters.java:248 | `Float.compareTo` on values other than NaN: negative exactly when the first is below the second in `Less` (by value, with -0 below 0), positive exactly when it is above, zero exactly when the two are the same float |
| JavaFloats.LessTotal | dist/mri-0.0.0.9/src/com/highbar/tools/trigger/cache/TriggerProgramParameters.java:248 | on parsed floats the comparison order is irreflexive, asymmetric and total |
| JavaFloats.DigitParses | dist/mri-0.0.0.9/src/com/highbar/tools/trigger/cache/TriggerProgramParameters.java:241-242 | a one-digit sequence number parses to its value, with a positive sign |
| JavaFloats.NegativeZeroParses | dist/mri-0.0.0.9/src/com/highbar/tools/trigger/cache/TriggerProgramParameters.java:241-242 | "-0" parses to the negative zero |
| JavaFloats.NegativeZeroBelowZero | dist/mri-0.0.0.9/src/com/highbar/tools/trigger/cache/TriggerProgramParameters.java:241-248 | sequence number "-0" compares below "0" |
| JavaFloats.SuffixAccepted | dist/mri-0.0.0.9/src/com/highbar/tools/trigger/cache/TriggerProgramParameters.java:241-242 | a trailing type suffix is accepted: "7f" parses to 7 |
| JavaSort.SortIsPermutation | src/com/highbar/tools/trigger/cache/TriggerProgramParametersCache.java:96-103 | Collections.sort keeps exactly the elements of the list |
| JavaSort.SortIsSorted | src/com/highbar/tools/trigger/cache/TriggerProgramParametersCache.java:96-103 | after the sort no element compares greater than the one after it |
| JavaSort.SortIsStable | src/com/highbar/tools/trigger/cache/TriggerProgramParametersCache.java:96-103 | elements that compare equal keep their original relative order |
| JavaStrings.IndexOfChar | src/com/highbar/tools/mri/aspects/MRIAspect.java:344 | indexOf of a character: -1 exactly when it does not occur, otherwise its first position |
| JavaStrings.LastIndexOfChar | src/com/highbar/tools/mri/aspects/MRIAspect.java:321-324 | lastIndexOf of a character: -1 exactly when it does not occur, otherwise its last position |
| JavaStrings.IndexOf | src/com/highbar/tools/mri/aspects/MRIAspect.java:353 | indexOf of a substring: -1 or a position where the substring occurs |
| JavaStrings.IndexOfFirst | src/com/highbar/tools/mri/aspects/MRIAspect.java:353 | no occurrence of the substring lies before the position indexOf reports, and none at all when it reports -1 |
| JavaStrings.Trim | src/com/highbar/tools/trigger/cache/TriggerProgramParametersCache.java:112 | String.trim: the middle slice of the string with every leading and trailing character at or below a space removed, and none left at either end |
| JavaStrings.CompareToZeroIffEqual | src/com/highbar/tools/mri/monitor/ExecutionNode.java:137-144 | String.compareTo is zero exactly for equal strings |
| JavaStrings.CompareToAntisymmetric | src/com/highbar/tools/mri/monitor/ExecutionNode.java:137-144 | String.compareTo both ways gives opposite values |
| JavaStrings.CompareToTransitive | src/com/highbar/tools/mri/monitor/ExecutionNode.java:137-144 | String.compareTo orders strings transitively |
| JavaStrings.ReplaceChar | src/com/highbar/tools/mri/aspects/MRIAspect.java:331 | replacing every dot by a slash changes those characters and no others |
| JavaStrings.TokenLength | dist/mri-0.0.0.9/src/com/highbar/tools/trigger/findMissing/MissingTriggerFinder.java:147 | a token runs up to, and not including, the first separator |
| JavaStrings.SplitAny | dist/mri-0.0.0.9/src/com/highbar/tools/trigger/findMissing/MissingTriggerFinder.java:147 | StringUtils.split yields non-empty tokens without any separator character |
| JavaStrings.SplitAnyKeepsText | dist/mri-0.0.0.9/src/com/highbar/tools/trigger/findMissing/MissingTriggerFinder.java:147 | the tokens of StringUtils.split, put together, are the text with every separator removed |
| JavaStrings.RawSplit | src/com/highbar/tools/mri/report/MRIReportWriter.java:181 | String.split before trailing empty strings are dropped: at least one piece |
| JavaStrings.RawSplitPieces | src/com/highbar/tools/mri/report/MRIReportWriter.java:181 | no piece contains the separator |
| JavaStrings.RawSplitJoin | src/com/highbar/tools/mri/report/MRIReportWriter.java:181 | joining the pieces with the separator gives back the string |
| JavaStrings.DropTrailingEmpty | src/com/highbar/tools/mri/report/MRIReportWriter.java:181 | String.split drops the trailing empty pieces, and only those |
| JavaStrings.SplitLiteral | src/com/highbar/tools/mri/report/MRIReportWriter.java:181 | a string without the separator splits into itself; no piece contains the separator |
| JavaStrings.SplitLiteralJoin | src/com/highbar/tools/mri/report/MRIReportWriter.java:181 | for a string not ending in the separator, joining the pieces of split gives back the string |
| JavaStrings.Int32 | src/com/highbar/tools/mri/monitor/ExecutionNode.java:169-175 | the 32-bit int arithmetic of hashCode: the value wrapped into the int range, congruent modulo 2^32 |
| MissingTriggers.TriggerableTypeNames | dist/mri-0.0.0.9/src/com/highbar/tools/trigger/findMissing/MissingTriggerFinder.java:249-258 | the map has exactly the four admin types attribute, policy, relationship and type as keys |
| MissingTriggers.TypeNamesInheritance | dist/mri-0.0.0.9/src/com/highbar/tools/trigger/findMissing/MissingTriggerFinder.java:249-258 | types and relationships select "trigger" exactly when inherited triggers are wanted and "immediatetrigger" otherwise; attributes always select "trigger" and policies "state.trigger" |
| MissingTriggers.AdminTypesAscending | dist/mri-0.0.0.9/src/com/highbar/tools/trigger/findMissing/MissingTriggerFinder.java:140 | the admin types are visited in ascending string order, the key order of the sorted map |
| MissingTriggers.Commands | dist/mri-0.0.0.9/src/com/highbar/tools/trigger/findMissing/MissingTriggerFinder.java:140-142 | one list command per admin type, in that order, selecting what TriggerableTypeNames gives for it |
| MissingTriggers.GetNameFromRemainingTokens | dist/mri-0.0.0.9/src/com/highbar/tools/trigger/findMissing/MissingTriggerFinder.java:239-247 | the loop computes RemainingName; a name is at least as long as the tokens it joins |
| MissingTriggers.SplitJoinedTokens | dist/mri-0.0.0.9/src/com/highbar/tools/trigger/findMissing/MissingTriggerFinder.java:239-247 | splitting at spaces the tokens joined with spaces gives back the tokens |
| MissingTriggers.RemainingNameWords | dist/mri-0.0.0.9/src/com/highbar/tools/trigger/findMissing/MissingTriggerFinder.java:181-189 | the name rebuilt from the tokens after the admin type splits back into exactly those tokens |
| MissingTriggers.FirstWord | dist/mri-0.0.0.9/src/com/highbar/tools/trigger/findMissing/MissingTriggerFinder.java:184 | the first token of a header line is its first word |
| MissingTriggers.TriggerableOfFirstWord | dist/mri-0.0.0.9/src/com/highbar/tools/trigger/findMissing/MissingTriggerFinder.java:181-189 | the admin type of a header is its first word, "business" read as "type" |
| MissingTriggers.BusinessTypeHeader | dist/mri-0.0.0.9/src/com/highbar/tools/trigger/findMissing/MissingTriggerFinder.java:149-153 | a "business type" header names a type |
| MissingTriggers.RelationshipTypeHeader | dist/mri-0.0.0.9/src/com/highbar/tools/trigger/findMissing/MissingTriggerFinder.java:149-153 | a "relationship type" header names a relationship |
| MissingTriggers.AttributeTypeHeader | dist/mri-0.0.0.9/src/com/highbar/tools/trigger/findMissing/MissingTriggerFinder.java:149-153 | an "attribute type" header names an attribute |
| MissingTriggers.PolicyAdminType | dist/mri-0.0.0.9/src/com/highbar/tools/trigger/findMissing/MissingTriggerFinder.java:191-199 | a "policy" header names a policy |
| MissingTriggers.ParameterNames | dist/mri-0.0.0.9/src/com/highbar/tools/trigger/findMissing/MissingTriggerFinder.java:211 | the parameter names are non-empty and free of spaces, and together they are the parameter text without its spaces |
| MissingTriggers.StateTrigger | dist/mri-0.0.0.9/src/com/highbar/tools/trigger/findMissing/MissingTriggerFinder.java:201-218 | succeeds exactly with at least five fields: state from field 1, trimmed event from field 3, program from field 4 and parameters split from field 5 when present, none otherwise; fewer fields throw an index exception |
| MissingTriggers.TypeRelationshipOrAttributeTrigger | dist/mri-0.0.0.9/src/com/highbar/tools/trigger/findMissing/MissingTriggerFinder.java:220-237 | succeeds exactly with at least three fields: state "n/a", trimmed event from field 1, program from field 2, parameters split from field 3 when present and a single empty name otherwise; fewer fields throw an index exception |
| MissingTriggers.NoHeaderKeepsCurrent | dist/mri-0.0.0.9/src/com/highbar/tools/trigger/findMissing/MissingTriggerFinder.java:138-158 | without a header line the triggerable in force stays the one before the lines |
| MissingTriggers.LatestHeaderInForce | dist/mri-0.0.0.9/src/com/highbar/tools/trigger/findMissing/MissingTriggerFinder.java:138-158 | after the lines, the triggerable in force is the one of the last header line |
| MissingTriggers.LastHeaderIsMostRecent | dist/mri-0.0.0.9/src/com/highbar/tools/trigger/findMissing/MissingTriggerFinder.java:138-174 | each trigger line is given the triggerable of the latest header above it, across command outputs, or the earlier one when there is none |
| MissingTriggers.ParseLinesAttaches | dist/mri-0.0.0.9/src/com/highbar/tools/trigger/findMissing/MissingTriggerFinder.java:147-175 | when every line parses, the loop appends each trigger line's trigger with the latest triggerable attached, in order |
| MissingTriggers.ParseLinesFails | dist/mri-0.0.0.9/src/com/highbar/tools/trigger/findMissing/MissingTriggerFinder.java:147-175 | parsing fails exactly when some line's parse throws |
| MissingTriggers.ParseLinesAfterFailure | dist/mri-0.0.0.9/src/com/highbar/tools/trigger/findMissing/MissingTriggerFinder.java:147-175 | the first exception ends the parse; later lines change nothing |
| MissingTriggers.ParseLinesAppend | dist/mri-0.0.0.9/src/com/highbar/tools/trigger/findMissing/MissingTriggerFinder.java:147-175 | parsing two blocks of lines in a row is parsing their concatenation, the triggerable carried over |
| MissingTriggers.CollectParsesAllLines | dist/mri-0.0.0.9/src/com/highbar/tools/trigger/findMissing/MissingTriggerFinder.java:140-176 | when every command runs, collecting the outputs is parsing all their lines in command order |
| MissingTriggers.CollectAfterFailure | dist/mri-0.0.0.9/src/com/highbar/tools/trigger/findMissing/MissingTriggerFinder.java:140-176 | a failing command or line ends the collection |
| MissingTriggers.GetTriggers | dist/mri-0.0.0.9/src/com/highbar/tools/trigger/findMissing/MissingTriggerFinder.java:134-179 | the triggers parsed from the outputs of every list command, or the first exception |
| MissingTriggers.CollectOutputs | dist/mri-0.0.0.9/src/com/highbar/tools/trigger/findMissing/MissingTriggerFinder.java:140-176 | the loop over the commands computes Collect |
| MissingTriggers.ClassifyLine | dist/mri-0.0.0.9/src/com/highbar/tools/trigger/findMissing/MissingTriggerFinder.java:149-174 | a header comes only from a line starting with a type keyword or "policy"; a trigger only from a line that is not one and holds "state[" or "trigger = "; a line is ignored exactly when it matches none of the four tests |
| MissingTriggers.ParseOutput | dist/mri-0.0.0.9/src/com/highbar/tools/trigger/findMissing/MissingTriggerFinder.java:147-175 | the loop over one output's lines computes ParseLines |
| MissingTriggers.ParameterLinesMeaning | dist/mri-0.0.0.9/src/com/highbar/tools/trigger/findMissing/MissingTriggerFinder.java:84-106 | one report line per parameter name the cache lacks, in order; a trigger without a triggerable throws a null-pointer exception exactly when it has such a name |
| MissingTriggers.MissingLinesMeaning | dist/mri-0.0.0.9/src/com/highbar/tools/trigger/findMissing/MissingTriggerFinder.java:82-108 | the report lines number the missing references of all triggers; a null-pointer exception exactly when a trigger without a triggerable has a missing reference |
| MissingTriggers.NoParametersNoLines | dist/mri-0.0.0.9/src/com/highbar/tools/trigger/findMissing/MissingTriggerFinder.java:82-108 | triggers without parameters give no report lines |
| MissingTriggers.ParameterLinesAfterFailure | dist/mri-0.0.0.9/src/com/highbar/tools/trigger/findMissing/MissingTriggerFinder.java:84-106 | an exception ends a trigger's lines |
| MissingTriggers.MissingLinesAfterFailure | dist/mri-0.0.0.9/src/com/highbar/tools/trigger/findMissing/MissingTriggerFinder.java:82-108 | an exception ends the report |
| MissingTriggers.LoadedAgain | dist/mri-0.0.0.9/src/com/highbar/tools/trigger/findMissing/MissingTriggerFinder.java:86-87 | once the cache has loaded, further lookups find the same cache |
| MissingTriggers.ReportName | dist/mri-0.0.0.9/src/com/highbar/tools/trigger/findMissing/MissingTriggerFinder.java:86-106 | one parameter name: a failed cache load throws; a cached name gives no line; an uncached one gives its report line |
| MissingTriggers.ReportParameters | dist/mri-0.0.0.9/src/com/highbar/tools/trigger/findMissing/MissingTriggerFinder.java:84-107 | one trigger's lines, ParameterLines over its parameter names; the cache is only loaded when there is a name to look up |
| MissingTriggers.ReportMissing | dist/mri-0.0.0.9/src/com/highbar/tools/trigger/findMissing/MissingTriggerFinder.java:80-115 | the report lines and their count for the given triggers, or the first exception, with the cache loaded as the lookups leave it |
| MissingTriggers.PrefixCount | dist/mri-0.0.0.9/src/com/highbar/tools/trigger/findMissing/MissingTriggerFinder.java:82-108 | the triggers of a prefix have no more parameters than all of them |
| MissingTriggers.ShowMissingTriggers | dist/mri-0.0.0.9/src/com/highbar/tools/trigger/findMissing/MissingTriggerFinder.java:70-124 | a failure getting the triggers is passed on with the cache untouched; otherwise the report ReportMissing gives for the triggers found |
| Profiler.ChainLevel | dist/mri-0.0.0.9/src/com/highbar/tools/mri/monitor/MRIProfiler.java:272-289 | the node at depth i of a thread's stack sits at level i of its call tree |
| Profiler.PushedChild | dist/mri-0.0.0.9/src/com/highbar/tools/mri/monitor/MRIProfiler.java:286-288 | adding a child below the node on top of a stack keeps every stack a parent chain and places the child one level below it |
| Profiler.StacksPop | dist/mri-0.0.0.9/src/com/highbar/tools/mri/monitor/MRIProfiler.java:123-135 | popping a stack keeps every stack a parent chain |
| Profiler.JavaTriggerTest | dist/mri-0.0.0.9/src/com/highbar/tools/mri/monitor/MRIProfiler.java:256-266 | true exactly when the top node is JPOSupport's invokeObject and its parent the trigger manager's mxMain; a null name or method on the way throws a null-pointer exception |
| Profiler.TriggerIdIsEquals | dist/mri-0.0.0.9/src/com/highbar/tools/mri/monitor/MRIProfiler.java:222-231 | the counting key of a trigger, name and revision, identifies triggers exactly as TriggerProgramParameters.equals does |
| Profiler.StringsTotallyOrdered | dist/mri-0.0.0.9/src/com/highbar/tools/mri/monitor/MRIProfiler.java:213-216 | String.compareTo is a total order, so the sorted copy of the missing-trigger counts is a faithful TreeMap |
| Profiler.CompareWithRevision | dist/mri-0.0.0.9/src/com/highbar/tools/mri/monitor/MRIProfiler.java:238-241 | the corrected comparator: zero only for triggers with the same name and revision, and the original order wherever it is not zero |
| Profiler.TriggersCopyLosesCount | dist/mri-0.0.0.9/src/com/highbar/tools/mri/monitor/MRIProfiler.java:238-241 | copying the trigger counts into a TreeMap ordered by compareTo merges two distinct triggers that differ only in revision, losing one count |
| Profiler.TriggersCopyKeepsAll | dist/mri-0.0.0.9/src/com/highbar/tools/mri/monitor/MRIProfiler.java:238-241 | with the corrected comparator the sorted copy holds exactly the counted entries |
| Profiler.CopiedTallyCounts | dist/mri-0.0.0.9/src/com/highbar/tools/mri/monitor/MRIProfiler.java:198-216 | the sorted copy maps each name to the number of times it was recorded missing, and holds no name never recorded |
| Profiler.StacksAfterPush | dist/mri-0.0.0.9/src/com/highbar/tools/mri/monitor/MRIProfiler.java:272-289 | pushing on one thread's stack leaves the other threads' stacks as they were |
| Profiler.StacksAfterPop | dist/mri-0.0.0.9/src/com/highbar/tools/mri/monitor/MRIProfiler.java:123-135 | popping one thread's stack leaves the other threads' stacks as they were |
| Profiler.RunCallRestores | src/com/highbar/tools/mri/aspects/MRIAspect.java:268-285 | however deeply advised calls nest inside one another on a thread, the outer call's pop takes the thread's stack back to what it was before its push; the thread's first call leaves its new root |
| Profiler.RunCallsRestore | src/com/highbar/tools/mri/aspects/MRIAspect.java:268-285 | a run of complete advised calls on a thread that already has a stack leaves every stack as it was |
| Profiler.PopUndoesPush | dist/mri-0.0.0.9/src/com/highbar/tools/mri/monitor/MRIProfiler.java:110-135 | a pop after a push gives back the stacks as they were, the new thread's stack holding just its root |
| Profiler.MRIProfiler.constructor | dist/mri-0.0.0.9/src/com/highbar/tools/mri/monitor/MRIProfiler.java:81-95 | an inactive profiler with no overhead, counts, nodes, stacks or roots |
| Profiler.MRIProfiler.AddTriggerManagerInstance | dist/mri-0.0.0.9/src/com/highbar/tools/mri/monitor/MRIProfiler.java:97-102 | appends one new stopped watch to the overhead list and changes nothing else |
| Profiler.MRIProfiler.Push | dist/mri-0.0.0.9/src/com/highbar/tools/mri/monitor/MRIProfiler.java:110-118 | lists the node under its identity and adds it as the last child of the node on top of its thread's stack, under a new thread root for a first call, one level below; an emptied stack throws |
| Profiler.MRIProfiler.AddNodeToList | dist/mri-0.0.0.9/src/com/highbar/tools/mri/monitor/MRIProfiler.java:291-306 | appends the node to the list kept under its identity; nothing else changes |
| Profiler.MRIProfiler.AddNodeToStack | dist/mri-0.0.0.9/src/com/highbar/tools/mri/monitor/MRIProfiler.java:272-289 | as Push for the call trees and stacks |
| Profiler.MRIProfiler.PushChild | dist/mri-0.0.0.9/src/com/highbar/tools/mri/monitor/MRIProfiler.java:286-288 | a new tree node below the top of the stack, pushed on it; an empty stack throws |
| Profiler.MRIProfiler.GetNewExecutionStack | dist/mri-0.0.0.9/src/com/highbar/tools/mri/monitor/MRIProfiler.java:308-323 | a new thread root, recorded among the roots, alone on a new stack |
| Profiler.MRIProfiler.Pop | dist/mri-0.0.0.9/src/com/highbar/tools/mri/monitor/MRIProfiler.java:123-135 | removes the top of the thread's stack; a missing or empty stack throws an illegal-state exception |
| Profiler.MRIProfiler.IsJavaTrigger | dist/mri-0.0.0.9/src/com/highbar/tools/mri/monitor/MRIProfiler.java:249-270 | false with fewer than two nodes on the thread's stack; otherwise JavaTriggerTest on the top node and the node below it |
| Profiler.MRIProfiler.GetRootExecutionNodes | dist/mri-0.0.0.9/src/com/highbar/tools/mri/monitor/MRIProfiler.java:141-144 | the thread roots, each at level 0 of its tree |
| Profiler.MRIProfiler.GetExecutionNodeMap | dist/mri-0.0.0.9/src/com/highbar/tools/mri/monitor/MRIProfiler.java:151-154 | the map from node identity to the nodes listed under it |
| Profiler.MRIProfiler.SetActive | dist/mri-0.0.0.9/src/com/highbar/tools/mri/monitor/MRIProfiler.java:160-163 | sets the flag and nothing else |
| Profiler.MRIProfiler.IsActive | dist/mri-0.0.0.9/src/com/highbar/tools/mri/monitor/MRIProfiler.java:168-171 | the flag |
| Profiler.MRIProfiler.Clear | dist/mri-0.0.0.9/src/com/highbar/tools/mri/monitor/MRIProfiler.java:176-184 | empties every collection and keeps the flag |
| Profiler.MRIProfiler.GetTriggerManagerOverhead | dist/mri-0.0.0.9/src/com/highbar/tools/mri/monitor/MRIProfiler.java:189-192 | the overhead watches |
| Profiler.MRIProfiler.AddMissingTrigger | dist/mri-0.0.0.9/src/com/highbar/tools/mri/monitor/MRIProfiler.java:198-208 | the name's count goes up by one and every other count is kept |
| Profiler.MRIProfiler.GetMissingTriggers | dist/mri-0.0.0.9/src/com/highbar/tools/mri/monitor/MRIProfiler.java:213-216 | the counts in ascending name order, each the number of times the name was recorded missing |
| Profiler.MRIProfiler.AddTrigger | dist/mri-0.0.0.9/src/com/highbar/tools/mri/monitor/MRIProfiler.java:222-232 | the trigger's count goes up by one and every other count is kept |
| Profiler.MRIProfiler.GetTriggers | dist/mri-0.0.0.9/src/com/highbar/tools/mri/monitor/MRIProfiler.java:238-241 | the sorted copy holds every counted entry, each trigger with its number of invocations (with the corrected comparator) |
| ReportViewer.FlattenPrefix | dist/mri-0.0.0.9/src/com/highbar/tools/mri/viewer/MRIReportViewer.java:265-275 | the rows of the first k traces are the beginning of the rows of all of them |
| ReportViewer.FlattenLayout | dist/mri-0.0.0.9/src/com/highbar/tools/mri/viewer/MRIReportViewer.java:265-275 | the rows of a trace are its thread row (order and depth -1, the thread's name and total time) followed by its own nodes, after the rows of the traces before it |
| ReportViewer.Accept | dist/mri-0.0.0.9/src/com/highbar/tools/mri/viewer/MRIReportViewer.java:662-699 | thread rows are always accepted, and an accepted row's type has its check box ticked |
| ReportViewer.ThresholdMeaning | dist/mri-0.0.0.9/src/com/highbar/tools/mri/viewer/MRIReportViewer.java:695 | the truncating division by a million keeps a node with slider value m >= 1 exactly when it took at least m milliseconds; with m <= 0 exactly when it took more than m-1 milliseconds |
| ReportViewer.AcceptMeaning | dist/mri-0.0.0.9/src/com/highbar/tools/mri/viewer/MRIReportViewer.java:662-699 | thread rows are always accepted; any other row exactly when its type's check box is ticked and its adjusted time passes the slider |
| ReportViewer.StricterSettingsNarrowView | dist/mri-0.0.0.9/src/com/highbar/tools/mri/viewer/MRIReportViewer.java:140-175 | ticking fewer boxes or raising the slider only removes rows: the stricter view is a filter of the looser one and no longer |
| ReportViewer.AncestorPositions | dist/mri-0.0.0.9/src/com/highbar/tools/mri/viewer/MRIReportViewer.java:286-294 | the positions the ancestor walk picks all lie before the selected node |
| ReportViewer.AncestorsClimb | dist/mri-0.0.0.9/src/com/highbar/tools/mri/viewer/MRIReportViewer.java:286-294 | the picked ancestors come in list order and their depths climb by one up to the selected node |
| ReportViewer.AncestorNearestAt | dist/mri-0.0.0.9/src/com/highbar/tools/mri/viewer/MRIReportViewer.java:286-294 | between two consecutive picks no row has the depth of the earlier pick |
| ReportViewer.AncestorsNearest | dist/mri-0.0.0.9/src/com/highbar/tools/mri/viewer/MRIReportViewer.java:286-294 | each ancestor is the nearest row above the next one with one less depth |
| ReportViewer.AncestorsStop | dist/mri-0.0.0.9/src/com/highbar/tools/mri/viewer/MRIReportViewer.java:286-294 | the walk ends at a depth-0 ancestor or at the top of the list |
| ReportViewer.FirstThreadRow | dist/mri-0.0.0.9/src/com/highbar/tools/mri/viewer/MRIReportViewer.java:790-797 | the first thread row in a range, or none when the range holds none |
| ReportViewer.LastThreadRow | dist/mri-0.0.0.9/src/com/highbar/tools/mri/viewer/MRIReportViewer.java:790-797 | the last thread row before a position, or none when there is none |
| ReportViewer.GetParentThreadNameAsWritten | dist/mri-0.0.0.9/src/com/highbar/tools/mri/viewer/MRIReportViewer.java:786-800 | the loop as written runs down to row 0 without stopping, so it returns the name of the first thread row in the table, not the nearest one |
| ReportViewer.ParentThreadNameAsWrittenPicksTopmost | dist/mri-0.0.0.9/src/com/highbar/tools/mri/viewer/MRIReportViewer.java:786-800 | with two threads and a node of the second one selected, the loop as written names the first thread while the nearest thread row is the second's |
| ReportViewer.GetParentThreadName | dist/mri-0.0.0.9/src/com/highbar/tools/mri/viewer/MRIReportViewer.java:786-800 | the corrected lookup: the name of the nearest thread row at or above the selected row, none when there is no thread row |
| ReportViewer.NewSelectionPastEnd | dist/mri-0.0.0.9/src/com/highbar/tools/mri/viewer/MRIReportViewer.java:744-761 | once in the thread, with no later row of that order or beyond, the selection falls back to row 0 |
| ReportViewer.NewSelectionStops | dist/mri-0.0.0.9/src/com/highbar/tools/mri/viewer/MRIReportViewer.java:744-758 | once in the thread, the first row at or beyond the order is selected when it has that order, the row before it otherwise |
| ReportViewer.NewSelectionNoThread | dist/mri-0.0.0.9/src/com/highbar/tools/mri/viewer/MRIReportViewer.java:732-743 | without the selected row's thread in the view the selection falls back to row 0 |
| ReportViewer.NewSelectionWaiting | dist/mri-0.0.0.9/src/com/highbar/tools/mri/viewer/MRIReportViewer.java:739-742 | rows before the selected row's thread row are skipped |
| ReportViewer.NewSelectionMeaning | dist/mri-0.0.0.9/src/com/highbar/tools/mri/viewer/MRIReportViewer.java:726-762 | the new selection is row 0 when the thread is absent or nothing in it reaches the order; otherwise the first row from the thread on with the order, or the row before the first that passes it |
| ReportViewer.GetNewSelectedRowIndex | dist/mri-0.0.0.9/src/com/highbar/tools/mri/viewer/MRIReportViewer.java:726-762 | the loop computes NewSelection, a null thread name throwing a null-pointer exception |
| ReportViewer.StackView.constructor | dist/mri-0.0.0.9/src/com/highbar/tools/mri/viewer/MRIReportViewer.java:87-92 | the given settings, no rows yet and no view |
| ReportViewer.StackView.InitExecutionNodeList | dist/mri-0.0.0.9/src/com/highbar/tools/mri/viewer/MRIReportViewer.java:263-278 | appends a thread row and the nodes of every trace to all rows, and builds the view of all rows under the current settings |
| ReportViewer.StackView.GetMethodAncestors | dist/mri-0.0.0.9/src/com/highbar/tools/mri/viewer/MRIReportViewer.java:280-297 | the selected node preceded by its ancestors as the walk finds them, the selected node last |
| ReportViewer.StackView.SelectRow | dist/mri-0.0.0.9/src/com/highbar/tools/mri/viewer/MRIReportViewer.java:225-254 | the ancestors of the selected view row, found at its position among all rows |
| ReportViewer.StackView.Filter | dist/mri-0.0.0.9/src/com/highbar/tools/mri/viewer/MRIReportViewer.java:704-724 | the view is rebuilt for the current settings; with a row selected, the new selection is NewSelection for its thread (the corrected lookup) and its order |
| ReportViewer.StackView.ChangeSettings | dist/mri-0.0.0.9/src/com/highbar/tools/mri/viewer/MRIReportViewer.java:140-175 | a check box or the slider changes the settings, the view is rebuilt under them, and the selected row is moved to the row with its order in its thread in the new view, or -1 stays -1 |
| ReportViewer.MxMainIsLast | dist/mri-0.0.0.9/src/com/highbar/tools/mri/viewer/MRIReportViewer.java:344-354 | the mxMain invocation count shown is that of the last mxMain summary of the trigger manager, 0 without one |
| ReportViewer.TriggerManagerTimeIsTheirTotal | dist/mri-0.0.0.9/src/com/highbar/tools/mri/viewer/MRIReportViewer.java:344-354 | the trigger manager time shown is the total time of exactly the trigger manager's summaries |
| ReportViewer.DisplayTriggerSummary | dist/mri-0.0.0.9/src/com/highbar/tools/mri/viewer/MRIReportViewer.java:334-361 | the loop computes the mxMain count and the trigger manager time; a trigger manager summary without a method throws a null-pointer exception |
| ReportViewer.SumAppend | dist/mri-0.0.0.9/src/com/highbar/tools/mri/viewer/MRIReportViewer.java:363-371 | the total of two lists of timings is the sum of their totals |
| ReportViewer.SumBoundsEach | dist/mri-0.0.0.9/src/com/highbar/tools/mri/viewer/MRIReportViewer.java:363-371 | with non-negative timings no single timing exceeds the total |
| ReportViewer.GetTriggerInstantiationOverhead | dist/mri-0.0.0.9/src/com/highbar/tools/mri/viewer/MRIReportViewer.java:363-371 | the loop adds up all the timings |
| ReportWriter.NetTimesAddUp | src/com/highbar/tools/mri/report/MRIReportWriter.java:264-273 | once every node's net time is its elapsed time less its children's, the net times of a subtree add up to the elapsed time of its root |
| ReportWriter.NetTimesAddUpForest | src/com/highbar/tools/mri/report/MRIReportWriter.java:264-273 | the same for a list of sibling subtrees: their net times add up to the roots' elapsed times |
| ReportWriter.SetAdjustedTime | src/com/highbar/tools/mri/report/MRIReportWriter.java:264-273 | the node's net time becomes its elapsed time minus its children's elapsed times; no node's method or arguments change |
| ReportWriter.SubtractChildren | src/com/highbar/tools/mri/report/MRIReportWriter.java:268-271 | the loop subtracts every child's elapsed time |
| ReportWriter.AdjustOne | src/com/highbar/tools/mri/report/MRIReportWriter.java:259 | one more node adjusted; those adjusted before stay adjusted; no other node's net time, no method or arguments and no watch change |
| ReportWriter.SetAdjustedTree | src/com/highbar/tools/mri/report/MRIReportWriter.java:257-260 | every node of a tree, its thread root included, ends adjusted; nodes outside the tree keep their net times, and no method, arguments or watch change |
| ReportWriter.AdjustNext | src/com/highbar/tools/mri/report/MRIReportWriter.java:257-260 | one step of the preorder iteration adjusts the node it yields and changes no other node's net time, no method, arguments or watch |
| ReportWriter.NextNode | src/com/highbar/tools/mri/report/MRIReportWriter.java:257 | the iterator yields the next node of the preorder and changes no node |
| ReportWriter.SetAdjustedTimes | src/com/highbar/tools/mri/report/MRIReportWriter.java:253-262 | every node of every given thread's tree ends with its net time adjusted; nodes outside those trees keep their net times; no method, arguments or watch changes |
| ReportWriter.GetTotalTimeForThread | src/com/highbar/tools/mri/report/MRIReportWriter.java:275-283 | the elapsed times of the thread root's children added up |
| ReportWriter.ThreadTotalIsNetTimes | src/com/highbar/tools/mri/report/MRIReportWriter.java:117-170 | a thread's total time equals the net times of all its non-root nodes added up |
| ReportWriter.NonRootsOfTree | src/com/highbar/tools/mri/report/MRIReportWriter.java:124-129 | skipping roots in a tree's preorder leaves the preorder of the root's children |
| ReportWriter.Scrubbed | src/com/highbar/tools/mri/report/MRIReportWriter.java:300-319 | same length; every character valid in XML, the valid ones unchanged |
| ReportWriter.ToXMLFriendly | src/com/highbar/tools/mri/report/MRIReportWriter.java:300-311 | the loop computes Scrubbed |
| ReportWriter.GetParameterTypes | src/com/highbar/tools/mri/report/MRIReportWriter.java:172-187 | a null signature throws a null-pointer exception; a missing parenthesis gives null; a closing parenthesis before the opening one throws an index exception; otherwise the types between them split at ", " |
| ReportWriter.ParameterTypesRejoin | src/com/highbar/tools/mri/report/MRIReportWriter.java:179-181 | the types joined with ", " give back the text between the parentheses |
| ReportWriter.ParametersOf | src/com/highbar/tools/mri/report/MRIReportWriter.java:142-163 | no arguments give no parameters; an exception of GetParameterTypes is passed on exactly when there are arguments; otherwise at least one parameter |
| ReportWriter.MethodParameters | src/com/highbar/tools/mri/report/MRIReportWriter.java:142-163 | the loop computes ParametersOf: the type and value pairs, or one "[Unable to Retrieve]" pair when the counts differ |
| ReportWriter.TableFromEntry | src/com/highbar/tools/mri/report/MRIReportWriter.java:123-167 | the row drafted for each node is the row its fields give |
| ReportWriter.RowsInTable | src/com/highbar/tools/mri/report/MRIReportWriter.java:123-167 | rows taken from the drafted table are the rows of their nodes |
| ReportWriter.WriteRow | src/com/highbar/tools/mri/report/MRIReportWriter.java:131-166 | a node's row, with its order, depth, type, name, method, elapsed and net time and parameters, or the parameters' exception |
| ReportWriter.NextRow | src/com/highbar/tools/mri/report/MRIReportWriter.java:124-134 | one iteration step: the root is skipped, any other node gives its row with the next order |
| ReportWriter.TreeRows | src/com/highbar/tools/mri/report/MRIReportWriter.java:123-167 | the rows of every non-root node in preorder, numbered in order, or an exception from some node's parameters |
| ReportWriter.TreeRowsMeaning | src/com/highbar/tools/mri/report/MRIReportWriter.java:123-167 | those rows are the rows of the tree's non-root nodes; an exception comes from a node whose parameters fail |
| ReportWriter.GetStackTrace | src/com/highbar/tools/mri/report/MRIReportWriter.java:117-170 | the thread id, the total time of the thread and the rows of its nodes in preorder, or an exception from some node's parameters |
| ReportWriter.SumAdjustedIsNetTimes | src/com/highbar/tools/mri/report/MRIReportWriter.java:140 | the adjusted times of the rows add up to the net times of their nodes |
| ReportWriter.StackTraceAddsUp | src/com/highbar/tools/mri/report/MRIReportWriter.java:117-170 | in a stack trace written after the adjustment, the rows' adjusted times add up to the thread's total time |
| ReportWriter.GetTotalTime | src/com/highbar/tools/mri/report/MRIReportWriter.java:285-293 | the net times of the list added up |
| ReportWriter.Quot | src/com/highbar/tools/mri/report/MRIReportWriter.java:297 | long division truncating toward zero |
| ReportWriter.GetAverageTime | src/com/highbar/tools/mri/report/MRIReportWriter.java:295-298 | the total net time divided by the count, truncated; an empty list throws an arithmetic exception |
| ReportWriter.Sign | src/com/highbar/tools/mri/report/MRIReportWriter.java:233-244 | the comparator's answer has the sign of the time difference |
| ReportWriter.SortedKeySetAsWritten | src/com/highbar/tools/mri/report/MRIReportWriter.java:225-251 | as written, the sorted set holds no more identities than were added, each one of them |
| ReportWriter.SortedKeySetDropsTies | src/com/highbar/tools/mri/report/MRIReportWriter.java:225-251 | as written, two different nodes with the same total time compare as equal, so the TreeSet keeps only the first |
| ReportWriter.OptionCompareOrder | src/com/highbar/tools/mri/report/MRIReportWriter.java:225-251 | the tie-break on names and methods, nulls first, is a total order |
| ReportWriter.KeyOrderPair | src/com/highbar/tools/mri/report/MRIReportWriter.java:225-251 | the tie-break on node identities is zero only for equal identities and antisymmetric |
| ReportWriter.KeyOrderTransitive | src/com/highbar/tools/mri/report/MRIReportWriter.java:225-251 | the tie-break is transitive |
| ReportWriter.ByTotalThenKeyTotal | src/com/highbar/tools/mri/report/MRIReportWriter.java:225-251 | the corrected comparator, by total time and then by identity, is a total order |
| ReportWriter.SortedKeySet | src/com/highbar/tools/mri/report/MRIReportWriter.java:225-251 | the corrected sorted set holds no more identities than were added, each one of them |
| ReportWriter.SortedKeySetKeepsAll | src/com/highbar/tools/mri/report/MRIReportWriter.java:225-251 | the corrected sorted set holds every node identity |
| ReportWriter.SortedKeySetDescending | src/com/highbar/tools/mri/report/MRIReportWriter.java:225-251 | the corrected sorted set lists identities by descending total time |
| ReportWriter.TotalsOf | src/com/highbar/tools/mri/report/MRIReportWriter.java:231 | each identity's total net time |
| ReportWriter.Summaries | src/com/highbar/tools/mri/report/MRIReportWriter.java:195-208 | one summary per sorted identity; an empty list of nodes throws an arithmetic exception |
| ReportWriter.GetMethodSummary | src/com/highbar/tools/mri/report/MRIReportWriter.java:189-211 | one summary per identity, each with its type, name, method, invocation count, average and total time, by descending total time; an empty list throws |
| ReportWriter.GetTriggers | src/com/highbar/tools/mri/report/MRIReportWriter.java:92-115 | the rows of the counted triggers whose active flag matches, in map order |
| ReportWriter.AllTriggerRows | src/com/highbar/tools/mri/report/MRIReportWriter.java:96-112 | one row per counted trigger |
| ReportWriter.TriggerRowsPartition | src/com/highbar/tools/mri/report/MRIReportWriter.java:52-53 | the active and the inactive rows together are all the triggers' rows |
| ReportWriter.TriggerRowsSelect | src/com/highbar/tools/mri/report/MRIReportWriter.java:92-115 | a row is listed exactly when it belongs to a trigger with the matching active flag |
| ReportWriter.GetMissingTriggers | src/com/highbar/tools/mri/report/MRIReportWriter.java:77-90 | one row per missing name with its attempts, in the map's ascending name order |
| ReportWriter.GetTriggerManagerOverhead | src/com/highbar/tools/mri/report/MRIReportWriter.java:213-223 | each overhead watch's elapsed time, in order |
| ReportWriter.StackTraces | src/com/highbar/tools/mri/report/MRIReportWriter.java:57-60 | one stack trace per thread root: that root's thread id, its thread total, the records of the tree's nodes below the root in preorder, adding up to the total; a failure comes from a node whose parameters cannot be written |
| ReportWriter.GatherReport | src/com/highbar/tools/mri/report/MRIReportWriter.java:50-60 | each stopwatch's reading as the overhead; the active and inactive trigger rows; one missing-trigger row per counted name; one summary per identity with its count, mean and total, distinct and largest total first; one stack trace per root as in StackTraces; a failure only from an empty node list or unwritable parameters, and always on an empty node list |
| ReportWriter.CreateReport | src/com/highbar/tools/mri/report/MRIReportWriter.java:37-75 | the adjustment runs first, so every stack trace's rows add up to its total time; only net times of nodes in the threads' trees change; the report parts are those of GatherReport, read after the adjustment |
| StopWatch.RunIsSumOfCycles | dist/mri-0.0.0.9/src/com/highbar/util/DefaultStopWatch.java:23-39 | the elapsed time a watch accumulates is the sum of the durations of its completed start-stop cycles; it is running exactly when a start is pending, since that start |
| StopWatch.ElapsedStepMonotonic | dist/mri-0.0.0.9/src/com/highbar/util/DefaultStopWatch.java:23-55 | with the clock moving forward, one start or stop never makes the reported elapsed time go down |
| StopWatch.ElapsedNeverDecreases | dist/mri-0.0.0.9/src/com/highbar/util/DefaultStopWatch.java:23-55 | over any chronological run of starts and stops, the elapsed time read later is never smaller than the one read earlier |
| StopWatch.DefaultStopWatch.constructor | dist/mri-0.0.0.9/src/com/highbar/util/DefaultStopWatch.java:18-20 | a stopped watch with nothing elapsed |
| StopWatch.DefaultStopWatch.Start | dist/mri-0.0.0.9/src/com/highbar/util/DefaultStopWatch.java:32-39 | starting a stopped watch records the start time; starting a running one changes nothing |
| StopWatch.DefaultStopWatch.Stop | dist/mri-0.0.0.9/src/com/highbar/util/DefaultStopWatch.java:23-30 | stopping a running watch adds the time since its start; stopping a stopped one changes nothing; the total is the sum of its cycles |
| StopWatch.DefaultStopWatch.GetElapsedTime | dist/mri-0.0.0.9/src/com/highbar/util/DefaultStopWatch.java:41-55 | the completed cycles plus, while running, the time since the pending start |
| Strings.TerminatedIsJoinPlusSep | src/com/highbar/util/Strings.java:24-32 | appending each element and a separator, then cutting the last separator, gives the elements joined by the separator |
| Strings.JoinSnoc | src/com/highbar/util/Strings.java:24-27 | one more element adds a separator and the element |
| Strings.ValueOf | src/com/highbar/util/Strings.java:20-35 | the elements joined by the separator, empty for no elements |
| Strings.JoinLength | src/com/highbar/util/Strings.java:20-35 | the length is the elements' lengths plus one separator between each two |
| Tallies.Find | dist/mri-0.0.0.9/src/com/highbar/tools/mri/monitor/MRIProfiler.java:200 | HashMap.get: the position of the entry with the key, before which no entry has it |
| Tallies.TallyCounts | dist/mri-0.0.0.9/src/com/highbar/tools/mri/monitor/MRIProfiler.java:198-208 | after a run of additions each key's count is the number of times it was added |
| Tallies.TallyPositive | dist/mri-0.0.0.9/src/com/highbar/tools/mri/monitor/MRIProfiler.java:202-207 | every stored count is at least one |
| Tallies.TallyDistinct | dist/mri-0.0.0.9/src/com/highbar/tools/mri/monitor/MRIProfiler.java:198-208 | each key is stored once |
| Tallies.BumpCounts | dist/mri-0.0.0.9/src/com/highbar/tools/mri/monitor/MRIProfiler.java:198-208 | one addition raises the key's count by one and leaves every other count |
| TreeMaps.Put | dist/mri-0.0.0.9/src/com/highbar/tools/mri/monitor/MRIProfiler.java:213-216 | TreeMap.put adds at most one entry |
| TreeMaps.Copy | dist/mri-0.0.0.9/src/com/highbar/tools/mri/monitor/MRIProfiler.java:213-216 | the TreeMap copy holds no more entries than the source |
| TreeMaps.PutAscending | dist/mri-0.0.0.9/src/com/highbar/tools/mri/monitor/MRIProfiler.java:213-216 | under a total order, put keeps the keys ascending |
| TreeMaps.PutKeys | dist/mri-0.0.0.9/src/com/highbar/tools/mri/monitor/MRIProfiler.java:213-216 | put introduces no key besides the one put |
| TreeMaps.GetAfterPut | dist/mri-0.0.0.9/src/com/highbar/tools/mri/monitor/MRIProfiler.java:213-216 | under a total order, get after put finds the new value for that key and the old one for every other key |
| TreeMaps.CopyAscending | dist/mri-0.0.0.9/src/com/highbar/tools/mri/monitor/MRIProfiler.java:213-216 | under a total order the copy's keys are ascending |
| TreeMaps.CopyGet | dist/mri-0.0.0.9/src/com/highbar/tools/mri/monitor/MRIProfiler.java:213-216 | under a total order get on the copy finds each key's last value in the source |
| TreeMaps.PutInserts | dist/mri-0.0.0.9/src/com/highbar/tools/mri/monitor/MRIProfiler.java:238-241 | a key comparing unequal to every stored key is inserted, all entries kept |
| TreeMaps.CopyKeys | dist/mri-0.0.0.9/src/com/highbar/tools/mri/monitor/MRIProfiler.java:238-241 | the copy brings in no key that the source map did not hold |
| TreeMaps.CopyKeepsAll | dist/mri-0.0.0.9/src/com/highbar/tools/mri/monitor/MRIProfiler.java:238-241 | when no two source keys compare equal, the copy holds exactly the source entries |
| Trees.ChildrenAreSiblings | dist/mri-0.0.0.9/src/com/highbar/util/DefaultTreeNode.java:85-108 | a node's children are distinct arena nodes, in the order they were added, each created after the node |
| Trees.Preorder | src/com/highbar/util/AbstractTreeNode.java:115-131 | the pre-order listing of a subtree starts with its root |
| Trees.PostOrder | src/com/highbar/util/AbstractTreeNode.java:181-202 | the depth-first listing of a subtree ends with its root |
| Trees.SubtreeRootIsSmallest | dist/mri-0.0.0.9/src/com/highbar/util/DefaultTreeNode.java:41-47 | every node of a subtree was created no earlier than the subtree's root |
| Trees.SubtreeTransitive | dist/mri-0.0.0.9/src/com/highbar/util/DefaultTreeNode.java:77-80 | a descendant of a descendant is a descendant |
| Trees.SiblingSubtreesDisjoint | dist/mri-0.0.0.9/src/com/highbar/util/DefaultTreeNode.java:101-108 | the subtrees of two different children of one node share no node |
| Trees.TopChild | dist/mri-0.0.0.9/src/com/highbar/util/DefaultTreeNode.java:77-80 | a proper descendant lies below exactly one of the ancestor's children, found through getParent |
| Trees.PreorderForestCount | src/com/highbar/util/AbstractTreeNode.java:115-131 | walking a list of siblings yields each node of their subtrees exactly once and nothing else |
| Trees.SomeSubtreeUnfold | src/com/highbar/util/AbstractTreeNode.java:115-131 | a node is under a list of siblings when it is under the first or under the rest |
| Trees.FirstSubtreeExcludesRest | src/com/highbar/util/AbstractTreeNode.java:115-131 | a node under the first sibling is under none of the later ones |
| Trees.SubtreeUnfold | dist/mri-0.0.0.9/src/com/highbar/util/DefaultTreeNode.java:85-95 | a node is in a subtree when it is the root or lies under one of the root's children, never both |
| Trees.PreorderCount | src/com/highbar/util/AbstractTreeNode.java:94-131 | the pre-order iterator visits each node of the subtree exactly once and nothing outside it |
| Trees.PostOrderSameNodes | src/com/highbar/util/AbstractTreeNode.java:162-202 | the depth-first iterator visits the same nodes, as often, as the pre-order iterator |
| Trees.PostOrderForestSameNodes | src/com/highbar/util/AbstractTreeNode.java:181-202 | for a list of siblings, the depth-first walk and the pre-order walk hold the same nodes |
| Trees.PostOrderInSubtree | src/com/highbar/util/AbstractTreeNode.java:181-202 | the depth-first iterator yields only nodes of the subtree |
| Trees.ConcatDescendantsFirst | src/com/highbar/util/AbstractTreeNode.java:181-202 | joining two descendants-first listings, where nothing of the second lies under the first, keeps descendants first |
| Trees.LaterSiblingsNotBelow | src/com/highbar/util/AbstractTreeNode.java:181-202 | no node listed for a later sibling is an ancestor of a node listed for an earlier one |
| Trees.PostOrderForestDescendantsFirst | src/com/highbar/util/AbstractTreeNode.java:181-202 | for a list of siblings the depth-first walk lists every node after all of its descendants |
| Trees.PostOrderForestInSomeSubtree | src/com/highbar/util/AbstractTreeNode.java:181-202 | the depth-first walk of siblings yields only nodes under them |
| Trees.PostOrderDescendantsFirst | src/com/highbar/util/AbstractTreeNode.java:162-202 | the depth-first iterator yields every node after all of its descendants, the root last |
| Trees.AddChildParents | dist/mri-0.0.0.9/src/com/highbar/util/DefaultTreeNode.java:101-108 | addChild appends one node whose parent is the receiver, adds it to the end of the receiver's children and changes no other node |
| Trees.AddChildWellFormed | dist/mri-0.0.0.9/src/com/highbar/util/DefaultTreeNode.java:41-108 | adding a child keeps the tree shape: parents before children, parent and child lists agreeing, children in order |
| Trees.AddChildParentsFirst | dist/mri-0.0.0.9/src/com/highbar/util/DefaultTreeNode.java:41-47 | adding a child keeps every parent created before its children |
| Trees.AddChildParentsListChildren | dist/mri-0.0.0.9/src/com/highbar/util/DefaultTreeNode.java:101-108 | after addChild every node is listed among its parent's children |
| Trees.AddChildChildrenPointBack | dist/mri-0.0.0.9/src/com/highbar/util/DefaultTreeNode.java:101-108 | after addChild every listed child names its parent |
| Trees.AddChildChildrenOrdered | dist/mri-0.0.0.9/src/com/highbar/util/DefaultTreeNode.java:101-108 | after addChild children stay in the order they were added |
| Trees.PreorderInArena | src/com/highbar/util/AbstractTreeNode.java:115-131 | the pre-order walk names only nodes created no earlier than its root |
| Trees.PreorderForestInArena | src/com/highbar/util/AbstractTreeNode.java:115-131 | walking siblings names only nodes created after their parent |
| Trees.PreorderBelowRootHasParents | src/com/highbar/util/AbstractTreeNode.java:115-131 | every node the pre-order walk yields after the root has a parent |
| Trees.PreorderForestHasParents | src/com/highbar/util/AbstractTreeNode.java:115-131 | every node under a list of children has a parent |
| Trees.Forest.constructor | dist/mri-0.0.0.9/src/com/highbar/util/DefaultTreeNode.java:30-34 | an empty arena of tree nodes |
| Trees.Forest.NewRoot | dist/mri-0.0.0.9/src/com/highbar/util/DefaultTreeNode.java:30-34 | a new node with no parent and no children, at level 0, every existing node unchanged |
| Trees.Forest.NewChild | dist/mri-0.0.0.9/src/com/highbar/util/DefaultTreeNode.java:41-108 | a new node whose parent is the given node, appended to that node's children, one level deeper, all other nodes unchanged |
| Trees.Forest.GetLevel | dist/mri-0.0.0.9/src/com/highbar/util/DefaultTreeNode.java:61-72 | counts the parent links up to the root: the node's level |
| Trees.Forest.GetParent | dist/mri-0.0.0.9/src/com/highbar/util/DefaultTreeNode.java:77-80 | no parent exactly for a node at level 0; otherwise a node created earlier, listing this one among its children, one level up |
| Trees.Forest.GetChildren | dist/mri-0.0.0.9/src/com/highbar/util/DefaultTreeNode.java:85-95 | exactly the nodes whose parent is this node, in insertion order |
| Trees.Forest.IsRoot | src/com/highbar/util/AbstractTreeNode.java:26-29 | a node is a root exactly when its level is 0 |
| Trees.Forest.HasChildren | src/com/highbar/util/AbstractTreeNode.java:43-46 | true exactly when the subtree holds more than the node |
| Trees.Forest.IsLeaf | src/com/highbar/util/AbstractTreeNode.java:35-38 | true exactly when the subtree is the node alone |
| Trees.StackRemainingPush | src/com/highbar/util/AbstractTreeNode.java:115-131 | pushing a children list in front adds their subtrees' walk in front of what was pending |
| Trees.PreorderForestUnfold | src/com/highbar/util/AbstractTreeNode.java:115-131 | walking siblings is the first sibling, its children's subtrees, then the later siblings |
| Trees.PreorderStepPop | src/com/highbar/util/AbstractTreeNode.java:115-131 | removing the first sibling from the top list leaves the rest of that list pending |
| Trees.PreorderStep | src/com/highbar/util/AbstractTreeNode.java:115-131 | one step of next yields the first pending node and leaves the rest of the pre-order pending |
| Trees.StackAfterStep | src/com/highbar/util/AbstractTreeNode.java:115-131 | after a step the pending nodes are the yielded node's subtrees, then the rest of its siblings, then what was below |
| Trees.GoodStackPush | src/com/highbar/util/AbstractTreeNode.java:125-128 | pushing a non-empty list of siblings keeps every stacked list non-empty |
| Trees.SiblingsTail | src/com/highbar/util/AbstractTreeNode.java:121-124 | the siblings after the first are siblings |
| Trees.StackRemainingEmpty | src/com/highbar/util/AbstractTreeNode.java:107-110 | nothing is pending exactly when the stack is empty |
| Trees.PreorderAdvance | src/com/highbar/util/AbstractTreeNode.java:115-131 | the node next yields is the next one of the pre-order, and the yielded plus the pending nodes still make up the whole pre-order |
| Trees.GoodStackPrefix | src/com/highbar/util/AbstractTreeNode.java:121-124 | popping a list keeps every stacked list non-empty |
| Trees.PreorderIterator.constructor | src/com/highbar/util/AbstractTreeNode.java:94-101 | an iterator that has yielded nothing, with the whole pre-order of the root pending |
| Trees.PreorderIterator.HasNext | src/com/highbar/util/AbstractTreeNode.java:107-110 | true exactly when some of the pre-order is not yet yielded |
| Trees.PreorderIterator.Next | src/com/highbar/util/AbstractTreeNode.java:115-131 | yields the next node of the pre-order; once all are yielded it raises EmptyStackException and yields nothing |
| Trees.PreorderIterator.Remove | src/com/highbar/util/AbstractTreeNode.java:137-140 | always raises UnsupportedOperationException |
| Trees.Iterator | src/com/highbar/util/AbstractTreeNode.java:53-73 | iterator and preorderIterator give a fresh pre-order iterator over the subtree |
| Trees.NothingLeftIffRootYielded | src/com/highbar/util/AbstractTreeNode.java:173-176 | the depth-first iterator has nothing left exactly when it has given out its root |
| Trees.StartState | src/com/highbar/util/AbstractTreeNode.java:162-167 | a new depth-first iterator holds its root and all its children |
| Trees.StartStateRemaining | src/com/highbar/util/AbstractTreeNode.java:162-167 | a new depth-first iterator will yield the whole post-order of its root |
| Trees.HasNextState | src/com/highbar/util/AbstractTreeNode.java:173-176 | hasNext is true exactly when something is left to yield |
| Trees.NextState | src/com/highbar/util/AbstractTreeNode.java:181-202 | a step keeps the iterator well formed over the same root |
| Trees.NextStateYieldsRemaining | src/com/highbar/util/AbstractTreeNode.java:181-202 | each call to next yields the first node still to come and leaves exactly the rest; when nothing is left it yields null |
| Trees.NextFromChildYields | src/com/highbar/util/AbstractTreeNode.java:185-188 | while the current child iterator has more, next passes on its answer |
| Trees.NextFromNewChildYields | src/com/highbar/util/AbstractTreeNode.java:189-194 | when the current child iterator is used up, next starts one on the next child and passes on its first node |
| Trees.NextIsRootYields | src/com/highbar/util/AbstractTreeNode.java:195-199 | once every child is used up, next yields the root and then nothing more |
| Trees.DepthFirstIterator.constructor | src/com/highbar/util/AbstractTreeNode.java:162-167 | an iterator that will yield the whole post-order of the root |
| Trees.DepthFirstIterator.HasNext | src/com/highbar/util/AbstractTreeNode.java:173-176 | true exactly when something is left to yield |
| Trees.DepthFirstIterator.Next | src/com/highbar/util/AbstractTreeNode.java:181-202 | yields the first node still to come and leaves exactly the rest |
| Trees.DepthFirstIterator.Remove | src/com/highbar/util/AbstractTreeNode.java:208-211 | always raises UnsupportedOperationException |
| Trees.DepthFirst | src/com/highbar/util/AbstractTreeNode.java:62-65 | depthFirstIterator gives a fresh iterator that will yield the post-order of the subtree |
| UnsynchronizedStacks.UnsynchronizedStack.constructor | src/com/highbar/util/UnsynchronizedStack.java:32-35 | a new stack is empty |
| UnsynchronizedStacks.UnsynchronizedStack.Copy | src/com/highbar/util/UnsynchronizedStack.java:37-40 | the copy holds the same elements, bottom first, in a list of its own |
| UnsynchronizedStacks.UnsynchronizedStack.Push | src/com/highbar/util/UnsynchronizedStack.java:46-49 | the element goes on top, the rest unchanged |
| UnsynchronizedStacks.UnsynchronizedStack.Pop | src/com/highbar/util/UnsynchronizedStack.java:57-71 | on an empty stack raises EmptyStackException and changes nothing; otherwise removes and gives back the top element |
| UnsynchronizedStacks.UnsynchronizedStack.Peek | src/com/highbar/util/UnsynchronizedStack.java:79-89 | the top element, or EmptyStackException exactly when the stack is empty; nothing changes |
| UnsynchronizedStacks.UnsynchronizedStack.Clear | src/com/highbar/util/UnsynchronizedStack.java:91-94 | the stack becomes empty |
| UnsynchronizedStacks.UnsynchronizedStack.Size | src/com/highbar/util/UnsynchronizedStack.java:107-110 | the number of elements on the stack |
| UnsynchronizedStacks.UnsynchronizedStack.IsEmpty | src/com/highbar/util/UnsynchronizedStack.java:99-102 | true exactly when the size is zero |
| UnsynchronizedStacks.PushThenPop | src/com/highbar/util/UnsynchronizedStack.java:46-71 | peek right after a push sees the pushed element, and a pop then gives it back and restores the stack |
| UnsynchronizedStacks.CopyIsIndependent | src/com/highbar/util/UnsynchronizedStack.java:37-49 | the copy is a new stack: after copying, a push onto the original leaves the copy as it was, and a push onto the copy leaves the original as it was |
| TriggerParameters.CompareTo | dist/mri-0.0.0.9/src/com/highbar/tools/trigger/cache/TriggerProgramParameters.java:232-257 | an unparseable sequence number compares below everything; two parsed triggers order by name, then by sequence number, and compare equal exactly when both agree |
| TriggerParameters.UnparseableBothLess | dist/mri-0.0.0.9/src/com/highbar/tools/trigger/cache/TriggerProgramParameters.java:239-254 | two triggers with unparseable sequence numbers each compare below the other |
| TriggerParameters.CompareToAntisymmetricWhenParsed | dist/mri-0.0.0.9/src/com/highbar/tools/trigger/cache/TriggerProgramParameters.java:232-257 | with both sequence numbers parsed, comparing the other way round flips the sign |
| TriggerParameters.CompareToPositiveIffAfter | dist/mri-0.0.0.9/src/com/highbar/tools/trigger/cache/TriggerProgramParameters.java:232-257 | compareTo is positive exactly when the first trigger sorts after the second: parsed after unparseable, then by name, then by sequence number |
| TriggerParameters.AfterAsymmetric | dist/mri-0.0.0.9/src/com/highbar/tools/trigger/cache/TriggerProgramParameters.java:232-257 | "sorts after" is asymmetric and separates different sort keys |
| TriggerParameters.AfterIncomparableIffSameKey | dist/mri-0.0.0.9/src/com/highbar/tools/trigger/cache/TriggerProgramParameters.java:232-257 | neither of two triggers sorts after the other exactly when their sort keys are equal; every unparseable sequence number falls in the one class at the bottom |
| TriggerParameters.AfterTransitive | dist/mri-0.0.0.9/src/com/highbar/tools/trigger/cache/TriggerProgramParameters.java:232-257 | "sorts after" is transitive, so with the previous row it is a strict weak order |
| TriggerParameters.Equals | dist/mri-0.0.0.9/src/com/highbar/tools/trigger/cache/TriggerProgramParameters.java:260-274 | a trigger equals itself; equal triggers share name and revision |
| TriggerParameters.EqualsOnlyNameAndRevision | dist/mri-0.0.0.9/src/com/highbar/tools/trigger/cache/TriggerProgramParameters.java:260-274 | two triggers with the same name and revision are equal, whatever their other fields |
| TriggerParameters.HashCode | dist/mri-0.0.0.9/src/com/highbar/tools/trigger/cache/TriggerProgramParameters.java:277-282 | a 32-bit value |
| TriggerParameters.HashCodeAgreesWithEquals | dist/mri-0.0.0.9/src/com/highbar/tools/trigger/cache/TriggerProgramParameters.java:260-282 | equal triggers have equal hash codes |
| TriggerParameters.TriggerProgramParameters.constructor | dist/mri-0.0.0.9/src/com/highbar/tools/trigger/cache/TriggerProgramParameters.java:22-32 | every text field empty, fifteen empty program arguments, neither active nor Java |
| TriggerParameters.TriggerProgramParameters.SetName | dist/mri-0.0.0.9/src/com/highbar/tools/trigger/cache/TriggerProgramParameters.java:44-47 | only the name changes |
| TriggerParameters.TriggerProgramParameters.SetRevision | dist/mri-0.0.0.9/src/com/highbar/tools/trigger/cache/TriggerProgramParameters.java:54-57 | only the revision changes |
| TriggerParameters.TriggerProgramParameters.SetConstructorArguments | dist/mri-0.0.0.9/src/com/highbar/tools/trigger/cache/TriggerProgramParameters.java:64-67 | only the constructor arguments change |
| TriggerParameters.TriggerProgramParameters.SetMethodName | dist/mri-0.0.0.9/src/com/highbar/tools/trigger/cache/TriggerProgramParameters.java:74-77 | only the method name changes |
| TriggerParameters.TriggerProgramParameters.SetProgramName | dist/mri-0.0.0.9/src/com/highbar/tools/trigger/cache/TriggerProgramParameters.java:84-87 | only the program name changes |
| TriggerParameters.TriggerProgramParameters.SetSequenceNumber | dist/mri-0.0.0.9/src/com/highbar/tools/trigger/cache/TriggerProgramParameters.java:94-97 | only the sequence number changes |
| TriggerParameters.TriggerProgramParameters.SetTargetStates | dist/mri-0.0.0.9/src/com/highbar/tools/trigger/cache/TriggerProgramParameters.java:104-107 | only the target states change |
| TriggerParameters.TriggerProgramParameters.SetErrorType | dist/mri-0.0.0.9/src/com/highbar/tools/trigger/cache/TriggerProgramParameters.java:114-117 | only the error type changes |
| TriggerParameters.TriggerProgramParameters.SetActive | dist/mri-0.0.0.9/src/com/highbar/tools/trigger/cache/TriggerProgramParameters.java:206-209 | only the active flag changes |
| TriggerParameters.TriggerProgramParameters.SetJava | dist/mri-0.0.0.9/src/com/highbar/tools/trigger/cache/TriggerProgramParameters.java:216-219 | only the Java flag changes |
| TriggerParameters.TriggerProgramParameters.SetProgramArgument | dist/mri-0.0.0.9/src/com/highbar/tools/trigger/cache/TriggerProgramParameters.java:126-199 | setProgramArgumentN stores into slot N-1 of the argument array and leaves the other slots |
| TriggerParameters.TriggerProgramParameters.GetProgramArguments | dist/mri-0.0.0.9/src/com/highbar/tools/trigger/cache/TriggerProgramParameters.java:119-124 | a fresh array of fifteen with the same arguments |
| TriggerParameters.CopyIsDefensive | dist/mri-0.0.0.9/src/com/highbar/tools/trigger/cache/TriggerProgramParameters.java:119-124 | writing into the returned copy leaves the trigger's own arguments unchanged |
| TriggerCache.SortBySequenceOrders | src/com/highbar/tools/trigger/cache/TriggerProgramParametersCache.java:96-103 | Collections.sort on a cached list yields a permutation of it, ordered so that no entry sorts after its successor, with entries of equal sort key left in their original order |
| TriggerCache.MxMainNotBlank | src/com/highbar/tools/trigger/cache/TriggerProgramParametersCache.java:115-118 | the default method name mxMain is not blank |
| TriggerCache.ProgramTypeValue | src/com/highbar/tools/trigger/cache/TriggerProgramParametersCache.java:105-119 | setProgramType sets the Java flag from the print command only when the list command finds the program, then gives a Java program with a blank method name the method mxMain |
| TriggerCache.JavaOnlyWhenProgramSaysSo | src/com/highbar/tools/trigger/cache/TriggerProgramParametersCache.java:107-112 | a trigger not yet marked Java becomes Java exactly when the program exists and its isjavaprogram answer is TRUE, ignoring case and surrounding blanks |
| TriggerCache.JavaMethodNeverBlank | src/com/highbar/tools/trigger/cache/TriggerProgramParametersCache.java:115-118 | after setProgramType a Java trigger always has a non-blank method name |
| TriggerCache.ProgramTypeChangesOnlyJavaAndMethod | src/com/highbar/tools/trigger/cache/TriggerProgramParametersCache.java:105-119 | setProgramType changes nothing besides the Java flag and the method name |
| TriggerCache.LoadAfterFailure | src/com/highbar/tools/trigger/cache/TriggerProgramParametersCache.java:86-91 | once a database command fails, no later query row is loaded |
| TriggerCache.LoadStep | src/com/highbar/tools/trigger/cache/TriggerProgramParametersCache.java:86-91 | each query row is converted, typed through the database and appended to what was loaded, or the loop stops at the first failing command |
| TriggerCache.AddedAllSnoc | src/com/highbar/tools/trigger/cache/TriggerProgramParametersCache.java:121-130 | adding one more trigger to the cache is one addToCache on top of the earlier ones |
| TriggerCache.AddedAllGroupsByName | src/com/highbar/tools/trigger/cache/TriggerProgramParametersCache.java:121-130 | after adding a run of triggers to an empty cache, the names in the cache are exactly the names added, each mapped to its triggers in the order added |
| TriggerCache.PopulatedGroups | src/com/highbar/tools/trigger/cache/TriggerProgramParametersCache.java:80-103 | initialize on an empty cache holds exactly the loaded names, each with its loaded triggers sorted by sequence number; a failed database command leaves the lists as added so far, unsorted |
| TriggerCache.EmptyQueryStaysEmpty | src/com/highbar/tools/trigger/cache/TriggerProgramParametersCache.java:80-94 | a query that finds no trigger parameters leaves the cache empty |
| TriggerCache.TriggerProgramParametersCache.constructor | src/com/highbar/tools/trigger/cache/TriggerProgramParametersCache.java:29-34 | a new cache is empty |
| TriggerCache.TriggerProgramParametersCache.GetTriggerProgramParameters | src/com/highbar/tools/trigger/cache/TriggerProgramParametersCache.java:44-70 | an empty cache is filled from the database first, a failure raising MatrixAccessException; the answer is the list cached under the name, or null when there is none |
| TriggerCache.TriggerProgramParametersCache.Reset | src/com/highbar/tools/trigger/cache/TriggerProgramParametersCache.java:75-78 | the cache becomes empty |
| TriggerCache.TriggerProgramParametersCache.Initialize | src/com/highbar/tools/trigger/cache/TriggerProgramParametersCache.java:80-94 | the cache becomes the population from the query rows, and it raises exactly when a database command fails |
| TriggerCache.TriggerProgramParametersCache.SortCachedListsBySequenceNumber | src/com/highbar/tools/trigger/cache/TriggerProgramParametersCache.java:96-103 | every cached list is replaced by its sorted version, the names unchanged |
| TriggerCache.TriggerProgramParametersCache.AddToCache | src/com/highbar/tools/trigger/cache/TriggerProgramParametersCache.java:121-130 | the trigger is appended to the list under its name, a new list being made for a new name |
| TriggerCache.FifteenSlots | src/com/highbar/tools/trigger/cache/TriggerProgramParametersCache.java:174-188 | storing the fifteen query values one by one into the argument slots yields exactly those values |
| TriggerCache.NewParameters | src/com/highbar/tools/trigger/cache/TriggerProgramParametersCache.java:162-196 | the new parameters carry the row's values, and are active exactly when the state is Active and the error type is Error, ignoring case |
| TriggerCache.SetProgramArguments | src/com/highbar/tools/trigger/cache/TriggerProgramParametersCache.java:174-188 | the fifteen argument slots hold the fifteen values read |
| TriggerCache.SetProgramType | src/com/highbar/tools/trigger/cache/TriggerProgramParametersCache.java:105-119 | updates the trigger to its typed form, or raises and leaves it unchanged when a database command fails |
| FilteredLists.Filtered | src/com/highbar/util/FilteredList.java:54-64 | the view is never longer than the list |
| FilteredLists.FilteredPicksAccepted | src/com/highbar/util/FilteredList.java:54-64 | the view is the list's elements at the accepted positions, in ascending order, and every position is accepted exactly when it is picked |
| FilteredLists.FilteredMembers | src/com/highbar/util/FilteredList.java:57-62 | an element is in the view exactly when it is in the list and the filter accepts it |
| FilteredLists.FilteredIdempotent | src/com/highbar/util/FilteredList.java:54-64 | filtering the view again with the same filter changes nothing |
| FilteredLists.FilteredAll | src/com/highbar/util/FilteredList.java:57-62 | a filter accepting everything gives back the whole list |
| FilteredLists.FilteredAppend | src/com/highbar/util/FilteredList.java:57-62 | the view of two lists joined is the two views joined |
| FilteredLists.FilteredNarrower | src/com/highbar/util/FilteredList.java:54-64 | a stricter filter yields the view of the wider filter's view, so tightening the criteria only removes rows |
| FilteredLists.FilteredList.constructor | src/com/highbar/util/FilteredList.java:31-37 | keeps both references and builds the view at once |
| FilteredLists.FilteredList.Get | src/com/highbar/util/FilteredList.java:39-43 | the element at the index of the stored view, IndexOutOfBoundsException outside it; while the view is current, the element at the index-th accepted position of the list |
| FilteredLists.FilteredList.Size | src/com/highbar/util/FilteredList.java:45-49 | the length of the stored view, at most the list's length while current |
| FilteredLists.FilteredList.OnFilterModify | src/com/highbar/util/FilteredList.java:54-64 | the view is rebuilt as the accepted elements of the current list in order, and is then current |

## Left out

- Concurrency is not modelled: the synchronized maps and sets, the `synchronized` block around cache population, and the race on a thread's first push. Every operation runs alone.
- Long overflow is not modelled. Times and counts are unbounded integers, while hash codes do wrap to 32 bits.
- `Float.valueOf` is modelled for plain decimals with an optional sign and type suffix only. Exponents, hexadecimal, NaN and infinities are not modelled: such sequence numbers count as unparseable here.
- JavaFloats.Compare: does not round to float precision. Two sequence numbers that differ only below float precision compare as different here, but equal in Java.
- TriggerParameters.CompareTo: inherits both gaps above. An exponent, NaN or infinity sequence number counts as unparseable, and numbers equal only after rounding to float precision are ordered by value.
- `Collections.sort` of cached trigger lists is modelled as a stable insertion sort that only asks whether one element sorts after another. "Sorts after" is a strict weak order (`TriggerParameters.AfterTransitive`, `TriggerParameters.AfterIncomparableIffSameKey`), so every stable sort that asks only that question gives the same result. The legacy merge sort of Java 6 and earlier asks only that, so the model equals it on lists of every length. The TimSort of Java 7 and later also asks whether `compareTo` is negative, and it reverses a run it reads as strictly descending. Two adjacent unparseable sequence numbers each compare below the other, so TimSort can swap them on a list of any length, two elements included. The stability half of `TriggerCache.SortBySequenceOrders` and of `JavaSort.SortIsStable` therefore holds for the legacy merge sort only, as far as unparseable sequence numbers go. Equal parsed sequence numbers, which the `compareTo` documentation promises keep their places, compare as 0 both ways. They stay in place under the legacy merge sort, and under TimSort as well on lists without unparseable sequence numbers.
- JAXB marshalling, `PrintWriter`, `System.out`, the report file and the generated `jaxb` classes are not modelled. `createReport` and `gatherReport` produce the report records as values.
- The MBean registration and JMX control surface of `MRIProfiler` and `MRIMonitor` are not modelled.
- The AspectJ pointcut declarations are not modelled, including the `if()` gating on `isActive`. The advice bodies take the join point as parameters. The advised call's return value is not modelled, only whether it returns or throws.
- Matrix connection, context and transaction handling are not modelled (connect, commit, abort in the missing-trigger finder). The `TempQuery` of `getQuery` is the `Row` datatype of the selected values, and `getSelectData` of an empty attribute is "".
- The `MRIProfiler` and `TriggerProgramParametersCache` singletons are passed as explicit objects.
- In `registerTriggers`, the trigger names that the aspect reads from the program arguments (`args[1]`) are a parameter.
- Profiler.MRIProfiler.GetExecutionNodeMap: the copy's `TreeMap` ordering by `ExecutionNode.compareTo` is not modelled. The map is a Dafny `map` keyed by identity, so the `NullPointerException` a null name raises in that ordering is not modelled either.
- ReportWriter.GetMethodSummary: uses the corrected `SortedKeySet`, which keeps identities whose total times tie (see Findings). The as-written `TreeSet` copy, which drops them, is modelled by `ReportWriter.SortedKeySetAsWritten` and exhibited by `ReportWriter.SortedKeySetDropsTies`.
- ReportWriter.GatherReport: its method summaries come from `GetMethodSummary`, so they keep tied identities that the source drops.
- ReportWriter.CreateReport: its method summaries come from `GetMethodSummary`, so they keep tied identities that the source drops.
- ReportViewer.StackView.Filter: restores the selection with the corrected `GetParentThreadName`, the nearest thread row above (see Findings). The source's lookup, which finds the topmost thread row, is modelled by `ReportViewer.GetParentThreadNameAsWritten`.
- ReportViewer.StackView.ChangeSettings: rebuilds the view with `Filter`, so it restores the selection with the corrected thread lookup as well.
- Profiler.MRIProfiler.GetTriggers: uses the ordering corrected with the revision (see Findings). The as-written copy is modelled by `Profiler.TriggersCopyLosesCount`.
- Aspect.Proceed: the advised call is an outcome passed in, so no profiled call happens between the method's push and its pop, and no child is pushed under the node while its watch runs. Nested calls are modelled on the execution stacks alone, by `Profiler.RunCall` with `Profiler.RunCallRestores`; the call trees and stopwatches of nested calls are not.
- `String.compareTo` and `String.hashCode` run over the characters of a Dafny string, which are Unicode scalar values, not UTF-16 code units. The two differ only for strings holding characters outside the Basic Multilingual Plane.
- Null strings are not modelled, except for the names and methods of execution nodes, which are `Option`s. Trigger definition strings are never null here.
- The report viewer's Swing layout, listeners, file chooser, table models and cell renderers are not modelled. So are `setRowSelectionInterval` and the millisecond display formatting (`NumberFormats`, `nanosToMillis` for display).
- The check boxes and the timing slider are a `FilterSettings` value. The slider's range of 0 to 500 is not enforced.
- `ReportViewer.StackView.GetMethodAncestors` takes the selected row's position in the full row list. The source finds that position with an identity `indexOf`, which for rows in the filtered view is the accepted position of the row.
- `Type.valueOf` on a name that is not a node type is not modelled: report rows carry the `NodeType` itself.
- `getStringValue` (the Java `toString` of arrays and of a Context) is not modelled. Arguments are held as their string forms.
- The nested iterators of `DepthFirstIterator` are modelled as values (`Trees.DepthFirstState`), not as separate objects. They are created fresh by their parent iterator and shared with nothing, so no aliasing is lost.
- `Trees.Forest.GetObject` returns the object stored at construction. It has no contract of its own beyond that.
- The filter of `FilteredList` is a function value held by a shared `FilterHandle`. `FilterModifiedListener` registration is not modelled.
- `StringUtils.split` is modelled by its specification: split on any of the listed characters, with no empty tokens.
- The schema name tables (types, attributes, basics) appear as their string literals.

## Findings

| source | as written | input that shows it | evidently intended | confidence | as-written member | corrected member |
|---|---|---|---|---|---|---|
| dist/mri-0.0.0.9/src/com/highbar/tools/mri/monitor/MRIProfiler.java:238-241 | `getTriggers` copies the trigger counts into a `TreeMap` ordered by `compareTo`, which compares only name and sequence number, while the counts are keyed by name and revision | two active triggers "T" with sequence number 1, revisions "0" and "1", each counted once: the copy holds one entry with count 1 | every counted trigger keeps its own entry and count | not executed | Profiler.TriggersCopyLosesCount | Profiler.TriggersCopyKeepsAll |
| src/com/highbar/tools/mri/report/MRIReportWriter.java:225-251 | `getSortedKeySet` adds the identities to a `TreeSet` whose comparator returns 0 for equal totals, so an identity with the same total as one already added is dropped | two JPO methods "A.m" and "B.m" with total net time 5 each: only "A.m" gets a summary | every identity gets a summary, ties broken by the identity's own order | not executed | ReportWriter.SortedKeySetDropsTies | ReportWriter.SortedKeySetKeepsAll |
| dist/mri-0.0.0.9/src/com/highbar/tools/mri/viewer/MRIReportViewer.java:786-800 | `getParentThreadName` scans from the selected row up to row 0 without stopping, so it returns the topmost thread row | rows [thread t1, node, thread t2, node] with the last node selected: the name is "t1" | the nearest thread row above the selection ("t2") | not executed | ReportViewer.GetParentThreadNameAsWritten | ReportViewer.GetParentThreadName |
