/** com.highbar.tools.trigger.cache.TriggerProgramParametersCache: trigger
    program parameters grouped by name, loaded from the database on the first
    lookup that finds the cache empty, each group in execution order. */
module TriggerCache {
  import opened Wrappers
  import JavaStrings
  import opened TriggerParameters
  import JavaSort

  /* ---------- sorting a list by sequence number ---------- */

  /** What `Collections.sort` asks of the comparator. */
  predicate SortsAfter(a: TriggerDef, b: TriggerDef)
  {
    CompareTo(a, b) > 0
  }

  /** `Collections.sort(list)` with `TriggerProgramParameters.compareTo`. */
  function SortBySequence(list: seq<TriggerDef>): seq<TriggerDef>
  {
    JavaSort.Sort(list, SortsAfter)
  }

  /** Sorting a list of trigger program parameters permutes it so that
      unparseable sequence numbers come first and the rest follow by name and
      numeric sequence, and entries with equal keys keep their order (in
      particular equal sequence numbers of one name, as the comparator's
      documentation promises). */
  lemma SortBySequenceOrders(list: seq<TriggerDef>)
    ensures var r := SortBySequence(list);
      multiset(r) == multiset(list)
      && (forall i :: 0 < i < |r| ==> !After(r[i - 1], r[i]))
      && (forall k :: JavaSort.WithKey(r, SortKey, k) == JavaSort.WithKey(list, SortKey, k))
  {
    var r := SortBySequence(list);
    forall a, b | SortsAfter(a, b)
      ensures !SortsAfter(b, a) && SortKey(a) != SortKey(b)
    {
      CompareToPositiveIffAfter(a, b);
      CompareToPositiveIffAfter(b, a);
      AfterAsymmetric(a, b);
    }
    JavaSort.SortIsPermutation(list, SortsAfter);
    JavaSort.SortIsSorted(list, SortsAfter);
    forall i | 0 < i < |r|
      ensures !After(r[i - 1], r[i])
    {
      CompareToPositiveIffAfter(r[i - 1], r[i]);
    }
    forall k
      ensures JavaSort.WithKey(r, SortKey, k) == JavaSort.WithKey(list, SortKey, k)
    {
      JavaSort.SortIsStable(list, SortsAfter, SortKey, k);
    }
  }

  /* ---------- the database ---------- */

  /** One row of the trigger program parameters query. */
  datatype Row = Row(
    name: string,
    revision: string,
    current: string,
    constructorArguments: string,
    programName: string,
    methodName: string,
    sequenceNumber: string,
    targetStates: string,
    errorType: string,
    programArguments: seq<string>)

  /** The query selects fifteen program arguments. */
  predicate WellFormedRow(row: Row)
  {
    |row.programArguments| == ProgramArgumentCount
  }

  /** The database as the cache sees it: the rows of the query (or the
      exception running it throws) and the text each MQL command prints (or
      the exception it throws). */
  datatype Database = Database(query: Result<seq<Row>>, mql: string -> Result<string>)

  predicate WellFormedDatabase(db: Database)
  {
    db.query.Ok? ==> forall i :: 0 <= i < |db.query.value| ==> WellFormedRow(db.query.value[i])
  }

  /** The trigger runs only in the "Active" state and with an error type of
      "Error", in any case. */
  predicate ActiveFlag(current: string, errorType: string)
  {
    current == "Active" && JavaStrings.EqualsIgnoreCase("Error", errorType)
  }

  /** The object `getTriggerProgramParameters(b)` builds from a row. */
  function RowDef(row: Row): TriggerDef
  {
    TriggerDef(row.name, row.revision, row.constructorArguments, row.methodName, row.programName,
      row.sequenceNumber, row.targetStates, row.errorType, row.programArguments,
      ActiveFlag(row.current, row.errorType), false)
  }

  function ListCommand(programName: string): string
  {
    "list program '" + programName + "'"
  }

  function PrintCommand(programName: string): string
  {
    "print program '" + programName + "' select isjavaprogram dump"
  }

  /** `setProgramType` as a function of the object before it. */
  function WithProgramType(d: TriggerDef, mql: string -> Result<string>): Result<TriggerDef>
  {
    var listed := mql(ListCommand(d.programName));
    if listed.Err? then Err(listed.error)
    else
      var printed := if |listed.value| != 0 then mql(PrintCommand(d.programName)) else Ok("");
      if printed.Err? then Err(printed.error)
      else
        var d' := if |listed.value| != 0
          then d.(isJava := JavaStrings.EqualsIgnoreCase("TRUE", JavaStrings.Trim(printed.value)))
          else d;
        if d'.isJava && |JavaStrings.Trim(d'.methodName)| == 0 then Ok(d'.(methodName := "mxMain"))
        else Ok(d')
  }

  /** "mxMain" is not blank. */
  lemma MxMainNotBlank()
    ensures JavaStrings.Trim("mxMain") == "mxMain"
  {
    assert JavaStrings.TrimStart("mxMain") == "mxMain";
    assert JavaStrings.TrimEnd("mxMain") == "mxMain";
  }

  /** The object after `setProgramType`, when no exception is thrown. */
  lemma ProgramTypeValue(d: TriggerDef, mql: string -> Result<string>)
    requires WithProgramType(d, mql).Ok?
    ensures var programExists := mql(ListCommand(d.programName)).value != [];
      var d' := if programExists
        then d.(isJava := JavaStrings.EqualsIgnoreCase("TRUE", JavaStrings.Trim(mql(PrintCommand(d.programName)).value)))
        else d;
      WithProgramType(d, mql).value
        == if d'.isJava && |JavaStrings.Trim(d.methodName)| == 0 then d'.(methodName := "mxMain") else d'
  {
  }

  /** A new object is marked Java only when its program exists and prints
      TRUE, in any case and surrounded by any white space. */
  lemma JavaOnlyWhenProgramSaysSo(d: TriggerDef, mql: string -> Result<string>)
    requires !d.isJava && WithProgramType(d, mql).Ok?
    ensures WithProgramType(d, mql).value.isJava <==>
      mql(ListCommand(d.programName)).value != []
      && JavaStrings.EqualsIgnoreCase("TRUE", JavaStrings.Trim(mql(PrintCommand(d.programName)).value))
  {
    ProgramTypeValue(d, mql);
  }

  /** After `setProgramType` a Java program never has a blank method name. */
  lemma JavaMethodNeverBlank(d: TriggerDef, mql: string -> Result<string>)
    requires WithProgramType(d, mql).Ok?
    ensures WithProgramType(d, mql).value.isJava ==> JavaStrings.Trim(WithProgramType(d, mql).value.methodName) != []
  {
    ProgramTypeValue(d, mql);
    var r := WithProgramType(d, mql).value;
    if r.isJava && |JavaStrings.Trim(d.methodName)| == 0 {
      assert r.methodName == "mxMain";
      MxMainNotBlank();
    } else {
      assert r.methodName == d.methodName;
    }
  }

  /** `setProgramType` changes nothing but `isJava` and the method name. */
  lemma ProgramTypeChangesOnlyJavaAndMethod(d: TriggerDef, mql: string -> Result<string>)
    requires WithProgramType(d, mql).Ok?
    ensures WithProgramType(d, mql).value.(isJava := d.isJava, methodName := d.methodName) == d
  {
    ProgramTypeValue(d, mql);
  }

  /** The rows as loaded: the objects of the rows before the first failing
      one, and whether one failed. */
  datatype Loaded = Loaded(defs: seq<TriggerDef>, failed: bool)

  function Load(rows: seq<Row>, mql: string -> Result<string>): Loaded
  {
    if rows == [] then Loaded([], false)
    else
      var before := Load(rows[..|rows| - 1], mql);
      if before.failed then before
      else
        match WithProgramType(RowDef(JavaSort.Last(rows)), mql)
        case Err(_) => Loaded(before.defs, true)
        case Ok(d) => Loaded(before.defs + [d], false)
  }

  lemma {:induction false} LoadAfterFailure(rows: seq<Row>, i: nat, mql: string -> Result<string>)
    requires i <= |rows| && Load(rows[..i], mql).failed
    ensures Load(rows, mql) == Load(rows[..i], mql)
    decreases |rows| - i
  {
    if i < |rows| {
      assert rows[..i + 1][..i] == rows[..i];
      LoadAfterFailure(rows, i + 1, mql);
    } else {
      assert rows[..i] == rows;
    }
  }

  /** One more row: loaded, or the failure. */
  lemma LoadStep(rows: seq<Row>, i: nat, mql: string -> Result<string>)
    requires i < |rows| && !Load(rows[..i], mql).failed
    ensures Load(rows[..i + 1], mql) == match WithProgramType(RowDef(rows[i]), mql)
      case Err(_) => Loaded(Load(rows[..i], mql).defs, true)
      case Ok(d) => Loaded(Load(rows[..i], mql).defs + [d], false)
  {
    assert rows[..i + 1][..i] == rows[..i];
  }

  lemma AddedAllSnoc(cache: map<string, seq<TriggerDef>>, defs: seq<TriggerDef>, d: TriggerDef)
    ensures AddedAll(cache, defs + [d]) == Added(AddedAll(cache, defs), d)
  {
    assert (defs + [d])[..|defs|] == defs;
  }

  /** `addToCache`: appended to its name's list, the list created if absent. */
  function Added(cache: map<string, seq<TriggerDef>>, d: TriggerDef): map<string, seq<TriggerDef>>
  {
    cache[d.name := (if d.name in cache then cache[d.name] else []) + [d]]
  }

  function AddedAll(cache: map<string, seq<TriggerDef>>, defs: seq<TriggerDef>): map<string, seq<TriggerDef>>
  {
    if defs == [] then cache else Added(AddedAll(cache, defs[..|defs| - 1]), JavaSort.Last(defs))
  }

  /** The objects named `name`, in order. */
  function Named(defs: seq<TriggerDef>, name: string): seq<TriggerDef>
  {
    if defs == [] then []
    else Named(defs[..|defs| - 1], name) + (if JavaSort.Last(defs).name == name then [JavaSort.Last(defs)] else [])
  }

  /** Adding to an empty cache groups the objects by name in the order they
      were added: one list per name that occurs, and nothing else. */
  lemma {:induction false} AddedAllGroupsByName(defs: seq<TriggerDef>)
    ensures forall n :: n in AddedAll(map[], defs) <==> Named(defs, n) != []
    ensures forall n :: n in AddedAll(map[], defs) ==> AddedAll(map[], defs)[n] == Named(defs, n)
  {
    if defs != [] {
      AddedAllGroupsByName(defs[..|defs| - 1]);
    }
  }

  /** `sortCachedListsBySequenceNumber` as a function. */
  function SortedAll(cache: map<string, seq<TriggerDef>>): map<string, seq<TriggerDef>>
  {
    map n | n in cache :: SortBySequence(cache[n])
  }

  /** The cache after `initialize`, and whether it threw. */
  datatype Population = Population(cache: map<string, seq<TriggerDef>>, failed: bool)

  function Populate(cache: map<string, seq<TriggerDef>>, db: Database): Population
  {
    if db.query.Err? then Population(cache, true)
    else
      var loaded := Load(db.query.value, db.mql);
      if loaded.failed then Population(AddedAll(cache, loaded.defs), true)
      else Population(SortedAll(AddedAll(cache, loaded.defs)), false)
  }

  /** A successful population of the empty cache holds, for each name in the
      query, exactly the rows with that name, sorted; a failed one keeps the
      rows before the failure, unsorted. */
  lemma PopulatedGroups(db: Database)
    requires db.query.Ok?
    ensures var p := Populate(map[], db);
      var loaded := Load(db.query.value, db.mql);
      (forall n :: n in p.cache <==> Named(loaded.defs, n) != [])
      && (forall n :: n in p.cache ==>
            p.cache[n] == (if p.failed then Named(loaded.defs, n) else SortBySequence(Named(loaded.defs, n))))
  {
    AddedAllGroupsByName(Load(db.query.value, db.mql).defs);
  }

  /** A query without rows leaves the cache empty, so the next lookup
      queries again. */
  lemma EmptyQueryStaysEmpty(db: Database)
    requires db.query == Ok([])
    ensures Populate(map[], db) == Population(map[], false)
  {
    assert SortedAll(map[]) == map[];
  }

  class TriggerProgramParametersCache {
    /** Lists of trigger program parameters by name. */
    var cache: map<string, seq<TriggerDef>>

    constructor ()
      ensures cache == map[]
    {
      cache := map[];
    }

    /** `getTriggerProgramParameters(context, name)`: loads the cache if it
        is empty, a failure surfacing as a MatrixAccessException; then the
        list for `name`, a copy, or null if there is none. */
    method GetTriggerProgramParameters(db: Database, name: string) returns (r: Result<Option<seq<TriggerDef>>>)
      requires WellFormedDatabase(db)
      modifies this
      ensures var p := if old(cache) == map[] then Populate(map[], db) else Population(old(cache), false);
        cache == p.cache
        && (p.failed ==> r == Err(MatrixAccess))
        && (!p.failed ==> r == Ok(if name in p.cache then Some(p.cache[name]) else None))
    {
      if |cache| == 0 {
        assert cache == map[];
        var o := Initialize(db);
        if o.Thrown? {
          return Err(MatrixAccess);
        }
      }
      if name in cache {
        r := Ok(Some(cache[name]));
      } else {
        r := Ok(None);
      }
    }

    /** `reset`: the next lookup loads the cache again. */
    method Reset()
      modifies this
      ensures cache == map[]
    {
      cache := map[];
    }

    /** `initialize`: every row becomes an object, gets its program type
        and is added to the cache; then every list is sorted. An exception
        stops the loop and leaves the lists unsorted. */
    method Initialize(db: Database) returns (o: Outcome)
      requires WellFormedDatabase(db)
      modifies this
      ensures cache == Populate(old(cache), db).cache
      ensures o.Thrown? <==> Populate(old(cache), db).failed
    {
      if db.query.Err? {
        return Thrown(db.query.error);
      }
      var rows := db.query.value;
      var i := 0;
      ghost var defs: seq<TriggerDef> := [];
      while i < |rows|
        invariant 0 <= i <= |rows|
        invariant Load(rows[..i], db.mql) == Loaded(defs, false)
        invariant cache == AddedAll(old(cache), defs)
      {
        LoadStep(rows, i, db.mql);
        var p := NewParameters(rows[i]);
        o := SetProgramType(p, db.mql);
        if o.Thrown? {
          LoadAfterFailure(rows, i + 1, db.mql);
          return;
        }
        var d := p.Def();
        AddToCache(d);
        AddedAllSnoc(old(cache), defs, d);
        defs := defs + [d];
        i := i + 1;
      }
      assert rows[..i] == rows;
      SortCachedListsBySequenceNumber();
      o := Done;
    }

    /** `sortCachedListsBySequenceNumber`: every list sorted in place. */
    method SortCachedListsBySequenceNumber()
      modifies this
      ensures cache == SortedAll(old(cache))
    {
      var names := cache.Keys;
      while names != {}
        invariant names <= cache.Keys == old(cache).Keys
        invariant forall n :: n in cache ==> cache[n] == if n in names then old(cache)[n] else SortBySequence(old(cache)[n])
        decreases names
      {
        var n :| n in names;
        cache := cache[n := SortBySequence(cache[n])];
        names := names - {n};
      }
    }

    /** `addToCache`. */
    method AddToCache(d: TriggerDef)
      modifies this
      ensures cache == Added(old(cache), d)
    {
      var list := if d.name in cache then cache[d.name] else [];
      cache := cache[d.name := list + [d]];
    }
  }

  /** Writing each of the fifteen slots in turn leaves exactly the values
      written. */
  lemma FifteenSlots(s: seq<string>, a: seq<string>)
    requires |s| == |a| == ProgramArgumentCount
    ensures s[0 := a[0]][1 := a[1]][2 := a[2]][3 := a[3]][4 := a[4]][5 := a[5]][6 := a[6]][7 := a[7]][8 := a[8]][9 := a[9]][10 := a[10]][11 := a[11]][12 := a[12]][13 := a[13]][14 := a[14]] == a
  {
    var r := s[0 := a[0]][1 := a[1]][2 := a[2]][3 := a[3]][4 := a[4]][5 := a[5]][6 := a[6]][7 := a[7]][8 := a[8]][9 := a[9]][10 := a[10]][11 := a[11]][12 := a[12]][13 := a[13]][14 := a[14]];
    assert forall i | 0 <= i < |a| :: r[i] == a[i];
  }

  /** `getTriggerProgramParameters(b)`: a new object holding the row's
      attributes, active exactly when the row's state and error type say so. */
  method NewParameters(row: Row) returns (p: TriggerProgramParameters)
    requires WellFormedRow(row)
    ensures fresh(p) && p.Valid()
    ensures p.Def() == RowDef(row)
  {
    p := new TriggerProgramParameters();
    p.SetName(row.name);
    p.SetRevision(row.revision);
    p.SetConstructorArguments(row.constructorArguments);
    p.SetProgramName(row.programName);
    p.SetMethodName(row.methodName);
    p.SetSequenceNumber(row.sequenceNumber);
    p.SetTargetStates(row.targetStates);
    p.SetErrorType(row.errorType);
    assert p.Fields() == RowDef(row).(programArguments := [], isActive := false);
    SetProgramArguments(p, row.programArguments);
    p.SetActive(row.current == "Active" && JavaStrings.EqualsIgnoreCase("Error", p.errorType));
  }

  /** The fifteen `setProgramArgumentK` calls of `getTriggerProgramParameters(b)`. */
  method SetProgramArguments(p: TriggerProgramParameters, args: seq<string>)
    requires p.Valid() && |args| == ProgramArgumentCount
    modifies p.programArguments
    ensures p.programArguments[..] == args
  {
    ghost var slots := p.programArguments[..];
    p.SetProgramArgument(1, args[0]);
    slots := slots[0 := args[0]];
    assert p.programArguments[..] == slots;
    p.SetProgramArgument(2, args[1]);
    slots := slots[1 := args[1]];
    assert p.programArguments[..] == slots;
    p.SetProgramArgument(3, args[2]);
    slots := slots[2 := args[2]];
    assert p.programArguments[..] == slots;
    p.SetProgramArgument(4, args[3]);
    slots := slots[3 := args[3]];
    assert p.programArguments[..] == slots;
    p.SetProgramArgument(5, args[4]);
    slots := slots[4 := args[4]];
    assert p.programArguments[..] == slots;
    p.SetProgramArgument(6, args[5]);
    slots := slots[5 := args[5]];
    assert p.programArguments[..] == slots;
    p.SetProgramArgument(7, args[6]);
    slots := slots[6 := args[6]];
    assert p.programArguments[..] == slots;
    p.SetProgramArgument(8, args[7]);
    slots := slots[7 := args[7]];
    assert p.programArguments[..] == slots;
    p.SetProgramArgument(9, args[8]);
    slots := slots[8 := args[8]];
    assert p.programArguments[..] == slots;
    p.SetProgramArgument(10, args[9]);
    slots := slots[9 := args[9]];
    assert p.programArguments[..] == slots;
    p.SetProgramArgument(11, args[10]);
    slots := slots[10 := args[10]];
    assert p.programArguments[..] == slots;
    p.SetProgramArgument(12, args[11]);
    slots := slots[11 := args[11]];
    assert p.programArguments[..] == slots;
    p.SetProgramArgument(13, args[12]);
    slots := slots[12 := args[12]];
    assert p.programArguments[..] == slots;
    p.SetProgramArgument(14, args[13]);
    slots := slots[13 := args[13]];
    assert p.programArguments[..] == slots;
    p.SetProgramArgument(15, args[14]);
    slots := slots[14 := args[14]];
    assert p.programArguments[..] == slots;
    FifteenSlots(old(p.programArguments[..]), args);
  }

  /** `setProgramType`: asks the database whether the program exists and
      whether it is a Java program; a Java program without a method name
      runs `mxMain`. */
  method SetProgramType(p: TriggerProgramParameters, mql: string -> Result<string>) returns (o: Outcome)
    modifies p
    ensures WithProgramType(old(p.Def()), mql).Ok? ==> o == Done && p.Def() == WithProgramType(old(p.Def()), mql).value
    ensures WithProgramType(old(p.Def()), mql).Err? ==> o.Thrown? && p.Def() == old(p.Def())
  {
    var listed := mql(ListCommand(p.programName));
    if listed.Err? {
      return Thrown(listed.error);
    }
    var programExists := |listed.value| != 0;
    if programExists {
      var result := mql(PrintCommand(p.programName));
      if result.Err? {
        return Thrown(result.error);
      }
      p.SetJava(JavaStrings.EqualsIgnoreCase("TRUE", JavaStrings.Trim(result.value)));
    }
    if p.isJava && |JavaStrings.Trim(p.methodName)| == 0 {
      p.SetMethodName("mxMain");
    }
    o := Done;
  }
}
