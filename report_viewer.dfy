/** com.highbar.tools.mri.viewer.MRIReportViewer: the parts of the report
    viewer that compute rather than draw. They are the flat call-stack list,
    with one synthetic row per thread; the filter behind the call-stack table;
    the walk from a selected row up to its ancestors; keeping the selection
    across a refilter; and the trigger-manager figures of the summary tab.
    The check boxes and the timing slider are a `FilterSettings` value. */
module ReportViewer {
  import opened Wrappers
  import opened ExecutionNodes
  import JavaStrings
  import FilteredLists
  import ReportWriter

  /** One `XExecutionNode` as read back from a report. The synthetic thread
      rows have order and depth -1. */
  datatype Row = Row(
    order: int,
    depth: int,
    nodeType: NodeType,
    name: Option<string>,
    methodName: Option<string>,
    totalTime: int,
    adjustedTime: int)

  /** One `XStackTrace` as read back from a report. */
  datatype Trace = Trace(threadId: string, totalTime: int, nodes: seq<Row>)

  /** The row `initExecutionNodeList` puts in front of a thread's nodes. */
  function ThreadRow(t: Trace): Row
  {
    Row(-1, -1, ROOT, Some(t.threadId), None, t.totalTime, 0)
  }

  /** Every thread row followed by that thread's nodes, thread by thread. */
  function Flatten(traces: seq<Trace>): seq<Row>
  {
    if traces == [] then []
    else
      var last := traces[|traces| - 1];
      Flatten(traces[..|traces| - 1]) + [ThreadRow(last)] + last.nodes
  }

  /** The rows of the first `k` threads are a prefix of the rows of all. */
  lemma {:induction false} FlattenPrefix(traces: seq<Trace>, k: nat)
    requires k <= |traces|
    ensures |Flatten(traces[..k])| <= |Flatten(traces)|
    ensures Flatten(traces)[..|Flatten(traces[..k])|] == Flatten(traces[..k])
  {
    if k == |traces| {
      assert traces[..k] == traces;
    } else {
      var front := traces[..|traces| - 1];
      FlattenPrefix(front, k);
      assert traces[..k] == front[..k];
      var m := |Flatten(front[..k])|;
      assert Flatten(traces)[..m] == Flatten(front)[..m];
    }
  }

  /** The rows of thread `k` start at the length of the rows of the threads
      before it: first the thread row, then the thread's nodes unchanged. */
  lemma FlattenLayout(traces: seq<Trace>, k: nat)
    requires k < |traces|
    ensures var o := |Flatten(traces[..k])|;
      && o + 1 + |traces[k].nodes| <= |Flatten(traces)|
      && Flatten(traces)[o] == ThreadRow(traces[k])
      && Flatten(traces)[o + 1..o + 1 + |traces[k].nodes|] == traces[k].nodes
  {
    FlattenPrefix(traces, k + 1);
    assert traces[..k + 1][..k] == traces[..k];
    var p := Flatten(traces[..k + 1]);
    assert p == Flatten(traces[..k]) + [ThreadRow(traces[k])] + traces[k].nodes;
    var o := |Flatten(traces[..k])|;
    assert Flatten(traces)[o + 1..o + 1 + |traces[k].nodes|] == p[o + 1..];
  }

  // ---------------------------------------------------------------------
  // XExecutionNodeFilter

  /** The state of the five check boxes and the timing slider. */
  datatype FilterSettings = FilterSettings(
    api: bool,
    triggerManager: bool,
    jpo: bool,
    jsp: bool,
    triggers: bool,
    sliderMillis: int)

  const NanosPerMilli := 1000000

  /** The check box a row type answers to, by the switch in `accept`; the
      deprecated API and TRIGGER types share their successors' boxes, and
      ROOT rows answer to none. */
  function Ticked(s: FilterSettings, t: NodeType): bool
  {
    match t
    case LG_CNS_API | MX_API | API => s.api
    case TRIGGER_MANAGER => s.triggerManager
    case JPO => s.jpo
    case JSP => s.jsp
    case JAVA_TRIGGER | TCL_TRIGGER | TRIGGER => s.triggers
    case ROOT => true
  }

  /** `XExecutionNodeFilter.accept`: the row's box must be ticked, and a row
      that is not a thread row must also have run, net of its children, for
      at least the slider's whole milliseconds. */
  function Accept(s: FilterSettings, row: Row): (b: bool)
    ensures row.nodeType == ROOT ==> b
    ensures b ==> Ticked(s, row.nodeType)
  {
    var accept := Ticked(s, row.nodeType);
    if accept && row.nodeType != ROOT then ReportWriter.Quot(row.adjustedTime, NanosPerMilli) >= s.sliderMillis
    else accept
  }

  /** The filter as the criteria of the shared `FilteredList`. */
  function Criteria(s: FilterSettings): Row -> bool
  {
    row => Accept(s, row)
  }

  /** The timing test in plain nanoseconds: with the slider at m >= 1 a row
      needs at least m whole milliseconds; at m <= 0 the truncation lets
      through anything above (m - 1) milliseconds, negative times included. */
  lemma ThresholdMeaning(adjustedTime: int, sliderMillis: int)
    ensures sliderMillis >= 1 ==>
      (ReportWriter.Quot(adjustedTime, NanosPerMilli) >= sliderMillis <==> adjustedTime >= sliderMillis * NanosPerMilli)
    ensures sliderMillis <= 0 ==>
      (ReportWriter.Quot(adjustedTime, NanosPerMilli) >= sliderMillis <==> adjustedTime > (sliderMillis - 1) * NanosPerMilli)
  {
  }

  /** Thread rows are always shown; any other row is shown exactly when its
      box is ticked and it passes the timing test. */
  lemma AcceptMeaning(s: FilterSettings, row: Row)
    ensures row.nodeType == ROOT ==> Accept(s, row)
    ensures row.nodeType != ROOT ==>
      (Accept(s, row) <==> Ticked(s, row.nodeType) && ReportWriter.Quot(row.adjustedTime, NanosPerMilli) >= s.sliderMillis)
    ensures row.nodeType != ROOT && s.sliderMillis >= 1 ==>
      (Accept(s, row) <==> Ticked(s, row.nodeType) && row.adjustedTime >= s.sliderMillis * NanosPerMilli)
  {
    ThresholdMeaning(row.adjustedTime, s.sliderMillis);
  }

  /** `strict` ticks no box that `loose` leaves clear, and its slider is no lower. */
  predicate Stricter(strict: FilterSettings, loose: FilterSettings)
  {
    && (strict.api ==> loose.api)
    && (strict.triggerManager ==> loose.triggerManager)
    && (strict.jpo ==> loose.jpo)
    && (strict.jsp ==> loose.jsp)
    && (strict.triggers ==> loose.triggers)
    && strict.sliderMillis >= loose.sliderMillis
  }

  /** Clearing a box or raising the slider only hides rows: the new view is
      the old view filtered again, so no row appears that was hidden. */
  lemma StricterSettingsNarrowView(rows: seq<Row>, strict: FilterSettings, loose: FilterSettings)
    requires Stricter(strict, loose)
    ensures FilteredLists.Filtered(rows, Criteria(strict))
      == FilteredLists.Filtered(FilteredLists.Filtered(rows, Criteria(loose)), Criteria(strict))
    ensures |FilteredLists.Filtered(rows, Criteria(strict))| <= |FilteredLists.Filtered(rows, Criteria(loose))|
  {
    forall row | Criteria(strict)(row) ensures Criteria(loose)(row) {
      assert Accept(strict, row);
    }
    FilteredLists.FilteredNarrower(rows, Criteria(strict), Criteria(loose));
  }

  // ---------------------------------------------------------------------
  // getMethodAncestors

  /** The positions found by scanning back from position `k` for the parent
      of a row at `depth`, then for that parent's parent, and so on, until a
      row of depth 0 is reached or the scan passes the first row. */
  function AncestorPositions(rows: seq<Row>, k: nat, depth: int): (ps: seq<nat>)
    requires k <= |rows|
    ensures forall i :: 0 <= i < |ps| ==> ps[i] < k
  {
    if depth == 0 || k == 0 then []
    else if rows[k - 1].depth == depth - 1 then AncestorPositions(rows, k - 1, depth - 1) + [k - 1]
    else AncestorPositions(rows, k - 1, depth)
  }

  function Pick(rows: seq<Row>, ps: seq<nat>): seq<Row>
    requires forall i :: 0 <= i < |ps| ==> ps[i] < |rows|
  {
    seq(|ps|, i requires 0 <= i < |ps| => rows[ps[i]])
  }

  /** The list `getMethodAncestors` returns for the row at `index`: its
      ancestors, outermost first, then the row itself. */
  function Lineage(rows: seq<Row>, index: nat): seq<Row>
    requires index < |rows|
  {
    Pick(rows, AncestorPositions(rows, index, rows[index].depth)) + [rows[index]]
  }

  predicate Ascending(ps: seq<nat>)
  {
    forall i, j :: 0 <= i < j < |ps| ==> ps[i] < ps[j]
  }

  /** The depths at the positions `ps` climb by one, ending one level above `depth`. */
  predicate ClimbsTo(rows: seq<Row>, ps: seq<nat>, depth: int)
    requires forall i :: 0 <= i < |ps| ==> ps[i] < |rows|
  {
    forall i :: 0 <= i < |ps| ==> rows[ps[i]].depth == depth - |ps| + i
  }

  /** No row strictly between a position of `ps` and the next one (or `k`
      after the last) has the depth of the row at that position. */
  predicate Nearest(rows: seq<Row>, ps: seq<nat>, k: nat)
    requires forall i :: 0 <= i < |ps| ==> ps[i] < |rows|
    requires k <= |rows|
  {
    forall i, q :: 0 <= i < |ps| && ps[i] < q < NextOr(ps, i, k) ==> rows[q].depth != rows[ps[i]].depth
  }

  /** The outermost depth reached is 0, or no row before the outermost
      position is one level shallower. */
  predicate Stops(rows: seq<Row>, ps: seq<nat>, k: nat, depth: int)
    requires forall i :: 0 <= i < |ps| ==> ps[i] < |rows|
    requires k <= |rows|
  {
    if ps == [] then depth == 0 || forall q :: 0 <= q < k ==> rows[q].depth != depth - 1
    else rows[ps[0]].depth == 0 || forall q :: 0 <= q < ps[0] ==> rows[q].depth != rows[ps[0]].depth - 1
  }

  /** The ancestor positions ascend, and their depths climb by one up to
      the depth the scan started from. */
  lemma {:induction false} AncestorsClimb(rows: seq<Row>, k: nat, depth: int)
    requires k <= |rows|
    ensures Ascending(AncestorPositions(rows, k, depth))
    ensures ClimbsTo(rows, AncestorPositions(rows, k, depth), depth)
  {
    if depth != 0 && k != 0 {
      var ps := AncestorPositions(rows, k, depth);
      if rows[k - 1].depth == depth - 1 {
        AncestorsClimb(rows, k - 1, depth - 1);
        var ps0 := AncestorPositions(rows, k - 1, depth - 1);
        assert ps == ps0 + [k - 1];
      } else {
        AncestorsClimb(rows, k - 1, depth);
      }
    }
  }

  /** The position after the `i`-th of `ps`, or `k` after the last. */
  function NextOr(ps: seq<nat>, i: nat, k: nat): nat
    requires i < |ps|
  {
    if i + 1 < |ps| then ps[i + 1] else k
  }

  /** One instance of `Nearest`: row `q`, strictly between the `i`-th
      ancestor position and the next, is not at that ancestor's depth. */
  lemma {:induction false} AncestorNearestAt(rows: seq<Row>, k: nat, depth: int, i: nat, q: nat)
    requires k <= |rows|
    requires i < |AncestorPositions(rows, k, depth)|
    requires AncestorPositions(rows, k, depth)[i] < q < NextOr(AncestorPositions(rows, k, depth), i, k)
    ensures rows[q].depth != rows[AncestorPositions(rows, k, depth)[i]].depth
  {
    var ps := AncestorPositions(rows, k, depth);
    if rows[k - 1].depth == depth - 1 {
      var ps0 := AncestorPositions(rows, k - 1, depth - 1);
      assert ps == ps0 + [k - 1];
      if i < |ps0| {
        assert NextOr(ps, i, k) == NextOr(ps0, i, k - 1);
        AncestorNearestAt(rows, k - 1, depth - 1, i, q);
      }
    } else {
      var ps0 := AncestorPositions(rows, k - 1, depth);
      assert ps == ps0;
      if q < k - 1 {
        AncestorNearestAt(rows, k - 1, depth, i, q);
      } else {
        AncestorsClimb(rows, k - 1, depth);
        assert rows[ps[i]].depth == depth - 1;
      }
    }
  }

  /** Each ancestor is the nearest row one level shallower before the next
      one (or before position `k` for the last). */
  lemma AncestorsNearest(rows: seq<Row>, k: nat, depth: int)
    requires k <= |rows|
    ensures Nearest(rows, AncestorPositions(rows, k, depth), k)
  {
    var ps := AncestorPositions(rows, k, depth);
    forall i, q | 0 <= i < |ps| && ps[i] < q < NextOr(ps, i, k)
      ensures rows[q].depth != rows[ps[i]].depth
    {
      AncestorNearestAt(rows, k, depth, i, q);
    }
  }

  /** The scan stops at a row of depth 0, or after passing every row with
      none earlier one level shallower than the outermost one found. */
  lemma {:induction false} AncestorsStop(rows: seq<Row>, k: nat, depth: int)
    requires k <= |rows|
    ensures Stops(rows, AncestorPositions(rows, k, depth), k, depth)
  {
    if depth != 0 && k != 0 {
      if rows[k - 1].depth == depth - 1 {
        AncestorsStop(rows, k - 1, depth - 1);
        var ps0 := AncestorPositions(rows, k - 1, depth - 1);
        assert AncestorPositions(rows, k, depth) == ps0 + [k - 1];
      } else {
        AncestorsStop(rows, k - 1, depth);
      }
    }
  }

  // ---------------------------------------------------------------------
  // Keeping the selection: getParentThreadName, getOrderOfSelectedRow,
  // getNewSelectedRowIndex

  /** The first thread row in [from, to), if any. */
  function FirstThreadRow(view: seq<Row>, from: nat, to: nat): (r: Option<nat>)
    requires from <= to <= |view|
    ensures r.Some? ==> from <= r.value < to && view[r.value].nodeType == ROOT
    ensures r.Some? ==> (forall q :: from <= q < r.value ==> view[q].nodeType != ROOT)
    ensures r.None? ==> (forall q :: from <= q < to ==> view[q].nodeType != ROOT)
    decreases (to as int) - (from as int)
  {
    if from == to then None
    else if view[from].nodeType == ROOT then Some(from)
    else FirstThreadRow(view, from + 1, to)
  }

  /** The last thread row before `to`, if any. */
  function LastThreadRow(view: seq<Row>, to: nat): (r: Option<nat>)
    requires to <= |view|
    ensures r.Some? ==> r.value < to && view[r.value].nodeType == ROOT
    ensures r.Some? ==> forall q :: r.value < q < to ==> view[q].nodeType != ROOT
    ensures r.None? ==> forall q :: 0 <= q < to ==> view[q].nodeType != ROOT
  {
    if to == 0 then None
    else if view[to - 1].nodeType == ROOT then Some(to - 1)
    else LastThreadRow(view, to - 1)
  }

  /** Column 1 of a thread row in the table: the thread's name. */
  function NameAt(view: seq<Row>, p: Option<nat>): Option<string>
    requires p.Some? ==> p.value < |view|
  {
    if p.None? then None else view[p.value].name
  }

  /** `getParentThreadName` as written. A row whose column 0 is a String
      (a thread row) sets the name, but the loop goes on down to row 0, so
      the topmost thread row wins, not the nearest one. */
  method GetParentThreadNameAsWritten(view: seq<Row>, selectedRow: int) returns (name: Option<string>)
    requires -1 <= selectedRow < |view|
    ensures name == NameAt(view, FirstThreadRow(view, 0, selectedRow + 1))
  {
    name := None;
    var i := selectedRow;
    while i != -1
      invariant -1 <= i <= selectedRow
      invariant name == NameAt(view, FirstThreadRow(view, i + 1, selectedRow + 1))
      decreases i
    {
      if view[i].nodeType == ROOT {
        name := view[i].name;
      }
      i := i - 1;
    }
  }

  /** With two threads in view and the second thread's node selected, the
      method as written names the first thread. */
  lemma ParentThreadNameAsWrittenPicksTopmost()
    ensures var t1, t2 := Trace("t1", 0, []), Trace("t2", 0, []);
      var node := Row(0, 1, JPO, None, None, 0, 0);
      var view := [ThreadRow(t1), node, ThreadRow(t2), node];
      && NameAt(view, FirstThreadRow(view, 0, 4)) == Some("t1")
      && NameAt(view, LastThreadRow(view, 4)) == Some("t2")
  {
  }

  /** `getParentThreadName` as intended: scanning up from the selected row,
      the first thread row met is the thread the row belongs to. */
  method GetParentThreadName(view: seq<Row>, selectedRow: int) returns (name: Option<string>)
    requires -1 <= selectedRow < |view|
    ensures name == NameAt(view, LastThreadRow(view, selectedRow + 1))
    ensures LastThreadRow(view, selectedRow + 1).None? ==> name == None
  {
    name := None;
    var i := selectedRow;
    while i != -1
      invariant -1 <= i <= selectedRow
      invariant LastThreadRow(view, selectedRow + 1) == LastThreadRow(view, i + 1)
      decreases i
    {
      if view[i].nodeType == ROOT {
        name := view[i].name;
        return;
      }
      i := i - 1;
    }
  }

  /** `getOrderOfSelectedRow`: column 0 holds the order of a node row; for a
      thread row it holds a String, the cast fails and the answer is -1. */
  function OrderOf(row: Row): int
  {
    if row.nodeType == ROOT then -1 else row.order
  }

  /** The scan of `getNewSelectedRowIndex` from row `i`, `looking` saying
      whether the thread row named `parent` has been passed. A thread row
      (depth -1) with no name throws NullPointerException. */
  function NewSelection(view: seq<Row>, parent: Option<string>, order: int, i: nat, looking: bool): Result<int>
    decreases |view| - i
  {
    if i >= |view| then Ok(0)
    else
      var n := view[i];
      if n.depth == -1 && n.name.None? then Err(NullPointer)
      else
        var looking' := looking || (n.depth == -1 && n.name == parent);
        if looking' && n.order == order then Ok(i)
        else if looking' && n.order > order then Ok(i - 1)
        else NewSelection(view, parent, order, i + 1, looking')
  }

  /** Every row at depth -1 has a name, as every thread row built by
      `initExecutionNodeList` does. */
  predicate NamedThreadRows(view: seq<Row>)
  {
    forall i :: 0 <= i < |view| && view[i].depth == -1 ==> view[i].name.Some?
  }

  predicate IsThreadRowOf(row: Row, parent: Option<string>)
  {
    row.depth == -1 && row.name == parent
  }

  /** Once looking, with every order from `i` on below the selected one,
      the scan runs to the end and answers 0. */
  lemma {:induction false} NewSelectionPastEnd(view: seq<Row>, parent: Option<string>, order: int, i: nat)
    requires NamedThreadRows(view)
    requires forall j :: i <= j < |view| ==> view[j].order < order
    ensures NewSelection(view, parent, order, i, true) == Ok(0)
    decreases |view| - i
  {
    if i < |view| {
      NewSelectionPastEnd(view, parent, order, i + 1);
    }
  }

  /** Once looking, the scan stops at row `j`, the first whose order
      reaches the selected one: that row if the order is equal, else the
      row before it. */
  lemma {:induction false} NewSelectionStops(view: seq<Row>, parent: Option<string>, order: int, i: nat, j: nat)
    requires NamedThreadRows(view)
    requires i <= j < |view| && view[j].order >= order
    requires forall q :: i <= q < j ==> view[q].order < order
    ensures NewSelection(view, parent, order, i, true) == Ok(if view[j].order == order then j else j - 1)
    decreases j - i
  {
    if i < j {
      NewSelectionStops(view, parent, order, i + 1, j);
    }
  }

  /** Before looking, with no thread row named `parent` from `i` on, the
      scan runs to the end and answers 0. */
  lemma {:induction false} NewSelectionNoThread(view: seq<Row>, parent: Option<string>, order: int, i: nat)
    requires NamedThreadRows(view)
    requires forall j :: i <= j < |view| ==> !IsThreadRowOf(view[j], parent)
    ensures NewSelection(view, parent, order, i, false) == Ok(0)
    decreases |view| - i
  {
    if i < |view| {
      NewSelectionNoThread(view, parent, order, i + 1);
    }
  }

  /** Before looking, the scan skips every row up to the first thread row
      named `parent` and from there on looks. */
  lemma {:induction false} NewSelectionWaiting(view: seq<Row>, parent: Option<string>, order: int, i: nat, s: nat)
    requires NamedThreadRows(view)
    requires i <= s < |view| && IsThreadRowOf(view[s], parent)
    requires forall q :: i <= q < s ==> !IsThreadRowOf(view[q], parent)
    ensures NewSelection(view, parent, order, i, false) == NewSelection(view, parent, order, s, true)
    decreases s - i
  {
    if i < s {
      NewSelectionWaiting(view, parent, order, i + 1, s);
    }
  }

  /** The new selection, when thread rows are named: 0 when the thread named
      `parent` is not in view. Otherwise, from that thread's row onward, the
      first row whose order is at least the selected order: that row when the
      order is equal, else the row just before it, or 0 when there is none. */
  lemma NewSelectionMeaning(view: seq<Row>, parent: Option<string>, order: int)
    requires NamedThreadRows(view)
    ensures (forall j :: 0 <= j < |view| ==> !IsThreadRowOf(view[j], parent)) ==> NewSelection(view, parent, order, 0, false) == Ok(0)
    ensures forall s :: 0 <= s < |view| && IsThreadRowOf(view[s], parent) && (forall q :: 0 <= q < s ==> !IsThreadRowOf(view[q], parent)) ==>
      && ((forall j :: s <= j < |view| ==> view[j].order < order) ==> NewSelection(view, parent, order, 0, false) == Ok(0))
      && (forall j :: s <= j < |view| && view[j].order >= order && (forall q :: s <= q < j ==> view[q].order < order) ==>
            NewSelection(view, parent, order, 0, false) == Ok(if view[j].order == order then j else j - 1))
  {
    if forall j :: 0 <= j < |view| ==> !IsThreadRowOf(view[j], parent) {
      NewSelectionNoThread(view, parent, order, 0);
    }
    forall s | 0 <= s < |view| && IsThreadRowOf(view[s], parent) && (forall q :: 0 <= q < s ==> !IsThreadRowOf(view[q], parent))
      ensures && ((forall j :: s <= j < |view| ==> view[j].order < order) ==> NewSelection(view, parent, order, 0, false) == Ok(0))
        && (forall j :: s <= j < |view| && view[j].order >= order && (forall q :: s <= q < j ==> view[q].order < order) ==>
              NewSelection(view, parent, order, 0, false) == Ok(if view[j].order == order then j else j - 1))
    {
      NewSelectionWaiting(view, parent, order, 0, s);
      if forall j :: s <= j < |view| ==> view[j].order < order {
        NewSelectionPastEnd(view, parent, order, s);
      }
      forall j | s <= j < |view| && view[j].order >= order && (forall q :: s <= q < j ==> view[q].order < order)
        ensures NewSelection(view, parent, order, 0, false) == Ok(if view[j].order == order then j else j - 1)
      {
        NewSelectionStops(view, parent, order, s, j);
      }
    }
  }

  /** `getNewSelectedRowIndex` over the refiltered view. */
  method GetNewSelectedRowIndex(view: seq<Row>, parent: Option<string>, order: int) returns (r: Result<int>)
    ensures r == NewSelection(view, parent, order, 0, false)
  {
    var looking := false;
    var i := 0;
    while i < |view|
      invariant 0 <= i <= |view|
      invariant NewSelection(view, parent, order, 0, false) == NewSelection(view, parent, order, i, looking)
    {
      var n := view[i];
      if n.depth == -1 {
        if n.name.None? {
          return Err(NullPointer);
        }
        if n.name == parent {
          looking := true;
        }
      }
      if looking {
        if n.order == order {
          return Ok(i);
        } else if n.order > order {
          return Ok(i - 1);
        }
      }
      i := i + 1;
    }
    return Ok(0);
  }

  // ---------------------------------------------------------------------
  // The viewer's call-stack state

  class StackView {
    /** `allNodes`: every row of every thread, built once. */
    const allNodes: FilteredLists.ListHandle<Row>
    /** The filter object, answering with the current settings. */
    const criteria: FilteredLists.FilterHandle<Row>
    /** The check boxes and the slider. */
    var settings: FilterSettings
    /** `filteredNodes`: null until `initExecutionNodeList` runs. */
    var filteredNodes: FilteredLists.FilteredList?<Row>

    ghost predicate Valid()
      reads this, criteria, filteredNodes
    {
      && criteria.accepts == Criteria(settings)
      && (filteredNodes != null ==> filteredNodes.unfilteredList == allNodes && filteredNodes.filter == criteria)
    }

    constructor (settings: FilterSettings)
      ensures this.settings == settings && allNodes.elements == [] && filteredNodes == null
      ensures Valid()
    {
      this.settings := settings;
      this.allNodes := new FilteredLists.ListHandle([]);
      this.criteria := new FilteredLists.FilterHandle(Criteria(settings));
      this.filteredNodes := null;
    }

    /** `initExecutionNodeList`: appends each thread's row and then its nodes
        to `allNodes`, and builds the filtered view over it. */
    method InitExecutionNodeList(traces: seq<Trace>)
      requires Valid()
      modifies this, allNodes
      ensures allNodes.elements == old(allNodes.elements) + Flatten(traces)
      ensures settings == old(settings) && Valid()
      ensures filteredNodes != null && fresh(filteredNodes)
      ensures filteredNodes.filteredList == FilteredLists.Filtered(allNodes.elements, Criteria(settings))
    {
      for i := 0 to |traces|
        invariant allNodes.elements == old(allNodes.elements) + Flatten(traces[..i])
        invariant unchanged(this)
      {
        assert traces[..i + 1][..i] == traces[..i];
        allNodes.elements := allNodes.elements + [ThreadRow(traces[i])];
        allNodes.elements := allNodes.elements + traces[i].nodes;
      }
      assert traces[..|traces|] == traces;
      filteredNodes := new FilteredLists.FilteredList(allNodes, criteria);
    }

    /** `getMethodAncestors` for the row at `index` of `allNodes`. */
    method GetMethodAncestors(index: nat) returns (ancestors: seq<Row>)
      requires index < |allNodes.elements|
      ensures ancestors == Lineage(allNodes.elements, index)
      ensures |ancestors| >= 1 && ancestors[|ancestors| - 1] == allNodes.elements[index]
    {
      var rows := allNodes.elements;
      var node := rows[index];
      var i := index;
      ghost var found: seq<nat> := [];
      ancestors := [node];
      while node.depth != 0 && i != 0
        invariant i <= index
        invariant forall j :: 0 <= j < |found| ==> found[j] < |rows|
        invariant AncestorPositions(rows, index, rows[index].depth) == AncestorPositions(rows, i, node.depth) + found
        invariant ancestors == Pick(rows, found) + [rows[index]]
        decreases i
      {
        i := i - 1;
        var parent := rows[i];
        if parent.depth == node.depth - 1 {
          assert Pick(rows, [i] + found) == [parent] + Pick(rows, found);
          ancestors := [parent] + ancestors;
          node := parent;
          found := [i] + found;
        }
      }
    }

    /** The selection listener: the row at `rowIndex` of the view is looked
        up in `allNodes` and its lineage listed. `indexOf` finds the row by
        identity, which is the position the view took it from. */
    method SelectRow(rowIndex: int) returns (ancestors: seq<Row>)
      requires filteredNodes != null && Valid() && filteredNodes.Current()
      requires 0 <= rowIndex < |filteredNodes.filteredList|
      ensures var idx := FilteredLists.AcceptedIndices(allNodes.elements, criteria.accepts);
        && rowIndex < |idx| && idx[rowIndex] < |allNodes.elements|
        && ancestors == Lineage(allNodes.elements, idx[rowIndex])
      ensures |ancestors| >= 1 && ancestors[|ancestors| - 1] == filteredNodes.filteredList[rowIndex]
    {
      var selected := filteredNodes.Get(rowIndex);
      FilteredLists.FilteredPicksAccepted(allNodes.elements, criteria.accepts);
      var position := FilteredLists.AcceptedIndices(allNodes.elements, criteria.accepts)[rowIndex];
      ancestors := GetMethodAncestors(position);
    }

    /** `CallStackTableFilter.filter`: with a row selected, notes its thread
        and order, rebuilds the view, and answers the row to select in the new
        view; with none selected (-1), only rebuilds the view. */
    method Filter(selectedRow: int) returns (r: Result<int>)
      requires filteredNodes != null && Valid()
      requires -1 <= selectedRow < |filteredNodes.filteredList|
      modifies filteredNodes
      ensures Valid() && filteredNodes.Current()
      ensures selectedRow == -1 ==> r == Ok(-1)
      ensures selectedRow != -1 ==>
        var before := old(filteredNodes.filteredList);
        r == NewSelection(filteredNodes.filteredList, NameAt(before, LastThreadRow(before, selectedRow + 1)),
                          OrderOf(before[selectedRow]), 0, false)
    {
      if selectedRow != -1 {
        var view := filteredNodes.filteredList;
        var parent := GetParentThreadName(view, selectedRow);
        var order := OrderOf(view[selectedRow]);
        filteredNodes.OnFilterModify();
        r := GetNewSelectedRowIndex(filteredNodes.filteredList, parent, order);
      } else {
        filteredNodes.OnFilterModify();
        r := Ok(-1);
      }
    }

    /** A check box or the slider changes: the filter answers with the new
        settings and the view is refiltered, keeping the selection. */
    method ChangeSettings(s: FilterSettings, selectedRow: int) returns (r: Result<int>)
      requires filteredNodes != null && Valid()
      requires -1 <= selectedRow < |filteredNodes.filteredList|
      modifies this, criteria, filteredNodes
      ensures settings == s && filteredNodes == old(filteredNodes) && Valid() && filteredNodes.Current()
      ensures filteredNodes.filteredList == FilteredLists.Filtered(allNodes.elements, Criteria(s))
      ensures selectedRow == -1 ==> r == Ok(-1)
      ensures selectedRow != -1 ==>
        var before := old(filteredNodes.filteredList);
        r == NewSelection(filteredNodes.filteredList, NameAt(before, LastThreadRow(before, selectedRow + 1)),
                          OrderOf(before[selectedRow]), 0, false)
    {
      settings := s;
      criteria.SetCriteria(Criteria(s));
      r := Filter(selectedRow);
    }
  }

  // ---------------------------------------------------------------------
  // displayTriggerSummary and getTriggerInstantiationOverhead

  /** The two trigger-manager figures of the summary tab. */
  datatype TriggerFigures = TriggerFigures(mxMainInvocations: int, triggerManagerTime: int)

  predicate IsTriggerManager(m: ReportWriter.MethodSummary)
  {
    m.nodeType == TRIGGER_MANAGER
  }

  predicate IsMxMain(m: ReportWriter.MethodSummary)
  {
    IsTriggerManager(m) && m.methodName.Some? && JavaStrings.StartsWith(m.methodName.value, "mxMain")
  }

  /** The invocations of the last trigger-manager `mxMain*` summary, or 0. */
  function MxMainInvocations(summaries: seq<ReportWriter.MethodSummary>): int
  {
    if summaries == [] then 0
    else if IsMxMain(summaries[|summaries| - 1]) then summaries[|summaries| - 1].invocations
    else MxMainInvocations(summaries[..|summaries| - 1])
  }

  function TotalTime(summaries: seq<ReportWriter.MethodSummary>): int
  {
    if summaries == [] then 0
    else TotalTime(summaries[..|summaries| - 1]) + summaries[|summaries| - 1].totalTime
  }

  /** The total time of the trigger-manager summaries, added up in order. */
  function TriggerManagerTime(summaries: seq<ReportWriter.MethodSummary>): int
  {
    if summaries == [] then 0
    else
      var last := summaries[|summaries| - 1];
      TriggerManagerTime(summaries[..|summaries| - 1]) + (if IsTriggerManager(last) then last.totalTime else 0)
  }

  /** The figures, or the NullPointerException of a trigger-manager summary
      with no method name. */
  function TriggerFiguresOf(summaries: seq<ReportWriter.MethodSummary>): Result<TriggerFigures>
  {
    if exists i :: 0 <= i < |summaries| && IsTriggerManager(summaries[i]) && summaries[i].methodName.None? then
      Err(NullPointer)
    else Ok(TriggerFigures(MxMainInvocations(summaries), TriggerManagerTime(summaries)))
  }

  /** The `mxMain` count is that of the last `mxMain` summary, 0 if none. */
  lemma {:induction false} MxMainIsLast(summaries: seq<ReportWriter.MethodSummary>)
    ensures (forall i :: 0 <= i < |summaries| ==> !IsMxMain(summaries[i])) ==> MxMainInvocations(summaries) == 0
    ensures forall j :: 0 <= j < |summaries| && IsMxMain(summaries[j]) && (forall k :: j < k < |summaries| ==> !IsMxMain(summaries[k])) ==>
      MxMainInvocations(summaries) == summaries[j].invocations
  {
    if summaries != [] {
      var front := summaries[..|summaries| - 1];
      MxMainIsLast(front);
      assert forall i :: 0 <= i < |front| ==> front[i] == summaries[i];
    }
  }

  /** The trigger-manager time is the total time of exactly the
      trigger-manager summaries. */
  lemma {:induction false} TriggerManagerTimeIsTheirTotal(summaries: seq<ReportWriter.MethodSummary>)
    ensures TriggerManagerTime(summaries) == TotalTime(FilteredLists.Filtered(summaries, IsTriggerManager))
  {
    if summaries != [] {
      var front := summaries[..|summaries| - 1];
      var last := summaries[|summaries| - 1];
      TriggerManagerTimeIsTheirTotal(front);
      var f := FilteredLists.Filtered(front, IsTriggerManager);
      if IsTriggerManager(last) {
        assert FilteredLists.Filtered(summaries, IsTriggerManager) == f + [last];
        assert (f + [last])[..|f|] == f;
        assert TotalTime(f + [last]) == TotalTime(f) + last.totalTime;
      } else {
        assert FilteredLists.Filtered(summaries, IsTriggerManager) == f + [];
        assert f + [] == f;
      }
    }
  }

  /** The loop of `displayTriggerSummary` over the method summaries. */
  method DisplayTriggerSummary(summaries: seq<ReportWriter.MethodSummary>) returns (r: Result<TriggerFigures>)
    ensures r == TriggerFiguresOf(summaries)
  {
    var invocations := 0;
    var time := 0;
    for i := 0 to |summaries|
      invariant forall k :: 0 <= k < i ==> !(IsTriggerManager(summaries[k]) && summaries[k].methodName.None?)
      invariant invocations == MxMainInvocations(summaries[..i])
      invariant time == TriggerManagerTime(summaries[..i])
    {
      var m := summaries[i];
      assert summaries[..i + 1][..i] == summaries[..i];
      if m.nodeType == TRIGGER_MANAGER {
        if m.methodName.None? {
          return Err(NullPointer);
        }
        if JavaStrings.StartsWith(m.methodName.value, "mxMain") {
          invocations := m.invocations;
        }
        time := time + m.totalTime;
      }
    }
    assert summaries[..|summaries|] == summaries;
    r := Ok(TriggerFigures(invocations, time));
  }

  function Sum(timings: seq<int>): int
  {
    if timings == [] then 0 else Sum(timings[..|timings| - 1]) + timings[|timings| - 1]
  }

  lemma {:induction false} SumAppend(a: seq<int>, b: seq<int>)
    ensures Sum(a + b) == Sum(a) + Sum(b)
  {
    if b != [] {
      SumAppend(a, b[..|b| - 1]);
      assert (a + b)[..|a + b| - 1] == a + b[..|b| - 1];
    } else {
      assert a + b == a;
    }
  }

  /** Non-negative timings never add up to less than any one of them. */
  lemma {:induction false} SumBoundsEach(timings: seq<int>)
    requires forall i :: 0 <= i < |timings| ==> timings[i] >= 0
    ensures forall i :: 0 <= i < |timings| ==> timings[i] <= Sum(timings)
  {
    if timings != [] {
      SumBoundsEach(timings[..|timings| - 1]);
    }
  }

  /** `getTriggerInstantiationOverhead`: the sum of the timings, in nanoseconds. */
  method GetTriggerInstantiationOverhead(timings: seq<int>) returns (total: int)
    ensures total == Sum(timings)
  {
    total := 0;
    for i := 0 to |timings|
      invariant total == Sum(timings[..i])
    {
      assert timings[..i + 1][..i] == timings[..i];
      total := total + timings[i];
    }
    assert timings[..|timings|] == timings;
  }
}
