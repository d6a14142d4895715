/** Solving a network one window at a time, each past its own end
    (interop/adapters/outbound/highs_network_solver.py). */
module RollingSolve {
  import opened Common
  import opened Calendar
  import opened SolveWindows

  const OPTIMAL := "optimal"

  // One value of one time-varying output column of the network.
  datatype Cell = Cell(column: string, snapshot: int)

  type Cells = map<Cell, real>

  // What the optimiser answers: a condition, and values for cells it may write.
  datatype Outcome = Outcome(condition: string, values: Cells)

  // An arbitrary optimiser: its answer may differ on every call.
  type Optimiser = (nat, Cells, seq<int>) -> Outcome

  // The operating cost of one snapshot, read off the values the network holds for it.
  type OperatingCost = (int, map<string, real>) -> real

  datatype SolveStatus = NothingSolved | AllOptimal | Conditions(conditions: set<string>)

  // ---- One window ----

  function IsBetween(start: int, end: int): int -> bool {
    (snapshot: int) => start <= snapshot <= end
  }

  function SnapshotsBetween(snapshots: seq<int>, start: int, end: int): seq<int> {
    Filter(snapshots, IsBetween(start, end))
  }

  /** The optimiser writes only the snapshots it was given. */
  function Written(cells: Cells, solving: seq<int>, values: Cells): (r: Cells)
    ensures forall cell :: cell in r <==> cell in cells || (cell in values && cell.snapshot in solving)
    ensures forall cell :: cell in r ==>
              r[cell] == if cell in values && cell.snapshot in solving then values[cell] else cells[cell]
  {
    cells + map cell | cell in values && cell.snapshot in solving :: values[cell]
  }

  /** Zeroed, not dropped: every column of each look-ahead snapshot. */
  function LookAheadZeroed(cells: Cells, solving: seq<int>, keepTo: int): (r: Cells)
    ensures r.Keys == cells.Keys
    ensures forall cell :: cell in r ==>
              r[cell] == if cell.snapshot in solving && cell.snapshot > keepTo then 0.0 else cells[cell]
  {
    map cell | cell in cells ::
      if cell.snapshot in solving && cell.snapshot > keepTo then 0.0 else cells[cell]
  }

  /** The values the network holds for one snapshot. */
  function Slice(cells: Cells, snapshot: int): (r: map<string, real>)
    ensures forall column :: column in r <==> Cell(column, snapshot) in cells
    ensures forall column :: column in r ==> r[column] == cells[Cell(column, snapshot)]
  {
    map cell | cell in cells && cell.snapshot == snapshot :: cell.column := cells[cell]
  }

  function ReportedCost(cells: Cells, reported: seq<int>, cost: OperatingCost): real {
    if |reported| == 0 then 0.0
    else
      var last := reported[|reported| - 1];
      ReportedCost(cells, reported[..|reported| - 1], cost) + cost(last, Slice(cells, last))
  }

  // ---- The run over all windows ----

  /** `costed` lists the snapshots whose cost the objective holds; the solver keeps no such list. */
  datatype RunState = RunState(
    cells: Cells,
    objective: real,
    conditions: seq<string>,
    reported: seq<int>,
    costed: seq<int>)

  datatype Problem = Problem(snapshots: seq<int>, optimise: Optimiser, cost: OperatingCost) {

    function Reported(window: SolveWindow): seq<int> {
      SnapshotsBetween(snapshots, window.solveFrom, window.keepTo)
    }

    function Solving(window: SolveWindow): seq<int> {
      SnapshotsBetween(snapshots, window.solveFrom, window.solveTo)
    }

    function OutcomeOf(state: RunState, window: SolveWindow): Outcome {
      optimise(|state.conditions|, state.cells, Solving(window))
    }

    /** The cells as the window's own solve leaves them. */
    function SolvedCells(state: RunState, window: SolveWindow): Cells {
      Written(state.cells, Solving(window), OutcomeOf(state, window).values)
    }

    function Step(state: RunState, window: SolveWindow): RunState {
      var reported := Reported(window);
      if |reported| == 0 then state
      else
        var outcome, solved := OutcomeOf(state, window), SolvedCells(state, window);
        var isOptimal := outcome.condition == OPTIMAL;
        RunState(
          LookAheadZeroed(solved, Solving(window), window.keepTo),
          state.objective + (if isOptimal then ReportedCost(solved, reported, cost) else 0.0),
          state.conditions + [outcome.condition],
          state.reported + reported,
          state.costed + (if isOptimal then reported else []))
    }

    function Run(cells: Cells, windows: seq<SolveWindow>): RunState {
      if |windows| == 0 then RunState(cells, 0.0, [], [], [])
      else Step(Run(cells, windows[..|windows| - 1]), windows[|windows| - 1])
    }
  }

  function Combine(conditions: seq<string>): SolveStatus {
    if forall condition :: condition in conditions ==> condition == OPTIMAL then AllOptimal
    else Conditions(set condition | condition in conditions)
  }

  function Itself(snapshot: int): int { snapshot }

  class Network {
    const snapshots: seq<int>
    var cells: Cells
    var objective: real
    var reportedSnapshots: Option<seq<int>>

    constructor (snapshots: seq<int>, cells: Cells)
      ensures this.snapshots == snapshots && this.cells == cells
      ensures objective == 0.0 && reportedSnapshots == None
    {
      this.snapshots, this.cells, this.objective, this.reportedSnapshots := snapshots, cells, 0.0, None;
    }
  }

  /** The solver's loop. With no snapshot in any range it writes nothing at all. */
  method Solve(network: Network, windows: seq<SolveWindow>, optimise: Optimiser, cost: OperatingCost)
    returns (status: SolveStatus, objective: real)
    modifies network
    ensures var problem := Problem(network.snapshots, optimise, cost);
            var final := problem.Run(old(network.cells), windows);
            && network.cells == final.cells
            && objective == final.objective
            && status == (if |final.conditions| == 0 then NothingSolved else Combine(final.conditions))
            && (|final.conditions| == 0 ==>
                  network.objective == old(network.objective) && network.reportedSnapshots == old(network.reportedSnapshots))
            && (|final.conditions| > 0 ==>
                  network.objective == objective
                  && network.reportedSnapshots == Some(StableSort(final.reported, Itself)))
  {
    ghost var problem, before := Problem(network.snapshots, optimise, cost), network.cells;
    var conditions: seq<string>, reportedSnapshots: seq<int> := [], [];
    objective := 0.0;
    for n := 0 to |windows|
      invariant |conditions| == 0 ==> objective == 0.0
      invariant network.objective == old(network.objective)
      invariant network.reportedSnapshots == old(network.reportedSnapshots)
      invariant var state := problem.Run(before, windows[..n]);
                && network.cells == state.cells && objective == state.objective
                && conditions == state.conditions && reportedSnapshots == state.reported
    {
      var window := windows[n];
      assert windows[..n + 1][..n] == windows[..n];
      var reported := SnapshotsBetween(network.snapshots, window.solveFrom, window.keepTo);
      if |reported| > 0 {
        var solving := SnapshotsBetween(network.snapshots, window.solveFrom, window.solveTo);
        var outcome := optimise(|conditions|, network.cells, solving);
        network.cells := Written(network.cells, solving, outcome.values);
        conditions := conditions + [outcome.condition];
        reportedSnapshots := reportedSnapshots + reported;
        if outcome.condition == OPTIMAL {
          objective := objective + ReportedCost(network.cells, reported, cost);
        }
        network.cells := LookAheadZeroed(network.cells, solving, window.keepTo);
      }
    }
    assert windows[..|windows|] == windows;
    if |conditions| == 0 {
      return NothingSolved, 0.0;
    }
    network.reportedSnapshots := Some(StableSort(reportedSnapshots, Itself));
    network.objective := objective;
    status := Combine(conditions);
  }

  // ---- What the whole run guarantees ----

  /** Windows in order, none reporting what an earlier one does, each solved at least to its end. */
  ghost predicate AreInOrder(windows: seq<SolveWindow>) {
    && (forall i :: 0 <= i < |windows| ==> windows[i].solveFrom <= windows[i].keepTo <= windows[i].solveTo)
    && (forall i, j :: 0 <= i < j < |windows| ==> windows[i].keepTo < windows[j].solveFrom)
  }

  lemma ReportedMembers(problem: Problem, window: SolveWindow, snapshot: int)
    ensures snapshot in problem.Reported(window) <==>
            snapshot in problem.snapshots && window.solveFrom <= snapshot <= window.keepTo
    ensures snapshot in problem.Solving(window) <==>
            snapshot in problem.snapshots && window.solveFrom <= snapshot <= window.solveTo
  {
  }

  lemma SameSlice(a: Cells, b: Cells, snapshot: int)
    requires forall column :: Cell(column, snapshot) in a <==> Cell(column, snapshot) in b
    requires forall column :: Cell(column, snapshot) in a ==> a[Cell(column, snapshot)] == b[Cell(column, snapshot)]
    ensures Slice(a, snapshot) == Slice(b, snapshot)
  {
    assert Slice(a, snapshot).Keys == Slice(b, snapshot).Keys;
  }

  /** A window leaves every snapshot it does not solve as it was. */
  lemma StepLeavesOthers(problem: Problem, state: RunState, window: SolveWindow, snapshot: int)
    requires snapshot !in problem.Solving(window)
    ensures Slice(problem.Step(state, window).cells, snapshot) == Slice(state.cells, snapshot)
  {
    hide Filter, Slice, ReportedCost;
    SameSlice(problem.Step(state, window).cells, state.cells, snapshot);
  }

  lemma StepKeepsReported(problem: Problem, state: RunState, window: SolveWindow, snapshot: int)
    requires snapshot in problem.Reported(window)
    ensures Slice(problem.Step(state, window).cells, snapshot) == Slice(problem.SolvedCells(state, window), snapshot)
  {
    hide Filter, Slice, ReportedCost;
    ReportedMembers(problem, window, snapshot);
    SameSlice(problem.Step(state, window).cells, problem.SolvedCells(state, window), snapshot);
  }

  lemma OrderOfPrefix(windows: seq<SolveWindow>, n: nat)
    requires AreInOrder(windows) && n <= |windows|
    ensures AreInOrder(windows[..n])
  {
  }

  lemma LaterWindowSolvesLater(problem: Problem, windows: seq<SolveWindow>, i: nat, j: nat, snapshot: int)
    requires AreInOrder(windows) && i < j < |windows| && snapshot in problem.Reported(windows[i])
    ensures snapshot !in problem.Solving(windows[j])
  {
  }

  /** A reported snapshot holds, when the run ends, what its own window's solve gave it. */
  lemma {:induction false} ReportedHoldsItsOwnSolve(
    problem: Problem, cells: Cells, windows: seq<SolveWindow>, i: nat, snapshot: int)
    requires AreInOrder(windows) && i < |windows| && snapshot in problem.Reported(windows[i])
    ensures Slice(problem.Run(cells, windows).cells, snapshot)
            == Slice(problem.SolvedCells(problem.Run(cells, windows[..i]), windows[i]), snapshot)
    decreases |windows|
  {
    hide Filter, Slice, Problem.Step, Problem.SolvedCells, Problem.Reported, Problem.Solving, AreInOrder;
    var n := |windows| - 1;
    var earlier := problem.Run(cells, windows[..n]);
    if i == n {
      StepKeepsReported(problem, earlier, windows[n], snapshot);
    } else {
      OrderOfPrefix(windows, n);
      assert windows[..n][i] == windows[i] && windows[..n][..i] == windows[..i];
      ReportedHoldsItsOwnSolve(problem, cells, windows[..n], i, snapshot);
      LaterWindowSolvesLater(problem, windows, i, n, snapshot);
      StepLeavesOthers(problem, earlier, windows[n], snapshot);
    }
  }

  /** Whether some window that reported anything solved the snapshot. */
  ghost predicate IsSolved(problem: Problem, windows: seq<SolveWindow>, snapshot: int) {
    exists i :: 0 <= i < |windows| && |problem.Reported(windows[i])| > 0 && snapshot in problem.Solving(windows[i])
  }

  ghost predicate IsZero(cells: Cells, snapshot: int) {
    forall cell :: cell in cells && cell.snapshot == snapshot ==> cells[cell] == 0.0
  }

  lemma IsSolvedStep(problem: Problem, windows: seq<SolveWindow>, snapshot: int)
    requires |windows| > 0
    ensures var window := windows[|windows| - 1];
            IsSolved(problem, windows, snapshot) <==>
              IsSolved(problem, windows[..|windows| - 1], snapshot)
              || (|problem.Reported(window)| > 0 && snapshot in problem.Solving(window))
  {
    var front := windows[..|windows| - 1];
    if i :| 0 <= i < |windows| && |problem.Reported(windows[i])| > 0 && snapshot in problem.Solving(windows[i]) {
      assert i < |front| ==> front[i] == windows[i];
    }
    if i :| 0 <= i < |front| && |problem.Reported(front[i])| > 0 && snapshot in problem.Solving(front[i]) {
      assert front[i] == windows[i];
    }
  }

  lemma StepZeroesItsLookAhead(problem: Problem, state: RunState, window: SolveWindow, snapshot: int)
    requires snapshot !in problem.Step(state, window).reported && |problem.Reported(window)| > 0
    requires snapshot in problem.Solving(window) || IsZero(state.cells, snapshot)
    ensures IsZero(problem.Step(state, window).cells, snapshot)
  {
  }

  /** A snapshot solved only as look-ahead is zero when the run ends. */
  lemma {:induction false} UnreportedIsZero(problem: Problem, cells: Cells, windows: seq<SolveWindow>, snapshot: int)
    requires IsSolved(problem, windows, snapshot) && snapshot !in problem.Run(cells, windows).reported
    ensures IsZero(problem.Run(cells, windows).cells, snapshot)
  {
    hide Filter, Problem.Reported, Problem.Solving, IsSolved, IsZero;
    if |windows| > 0 {
      var front, window := windows[..|windows| - 1], windows[|windows| - 1];
      IsSolvedStep(problem, windows, snapshot);
      if IsSolved(problem, front, snapshot) {
        UnreportedIsZero(problem, cells, front, snapshot);
      }
      if |problem.Reported(window)| > 0 {
        StepZeroesItsLookAhead(problem, problem.Run(cells, front), window, snapshot);
      }
    } else {
      NothingIsSolvedYet(problem, snapshot);
    }
  }

  lemma NothingIsSolvedYet(problem: Problem, snapshot: int)
    ensures !IsSolved(problem, [], snapshot)
  {
  }

  /** And a snapshot no window solved keeps what the network came with. */
  lemma {:induction false} UnsolvedIsUntouched(problem: Problem, cells: Cells, windows: seq<SolveWindow>, snapshot: int)
    requires !IsSolved(problem, windows, snapshot)
    ensures Slice(problem.Run(cells, windows).cells, snapshot) == Slice(cells, snapshot)
  {
    hide Filter, Slice, Problem.Reported, Problem.Solving, IsSolved;
    if |windows| > 0 {
      var front, window := windows[..|windows| - 1], windows[|windows| - 1];
      IsSolvedStep(problem, windows, snapshot);
      UnsolvedIsUntouched(problem, cells, front, snapshot);
      if |problem.Reported(window)| > 0 {
        StepLeavesOthers(problem, problem.Run(cells, front), window, snapshot);
      }
    }
  }

  // ---- Each snapshot is reported, and costed, once ----

  /** Exactly the snapshots some window reports. */
  lemma {:induction false} ReportedByRun(problem: Problem, cells: Cells, windows: seq<SolveWindow>, snapshot: int)
    ensures snapshot in problem.Run(cells, windows).reported <==>
            exists i :: 0 <= i < |windows| && snapshot in problem.Reported(windows[i])
  {
    hide Filter, Problem.Reported, Problem.Solving, ReportedCost, Written, LookAheadZeroed;
    if |windows| > 0 {
      var n := |windows| - 1;
      ReportedByRun(problem, cells, windows[..n], snapshot);
      if i :| 0 <= i < |windows| && snapshot in problem.Reported(windows[i]) {
        assert i < n ==> windows[..n][i] == windows[i];
      }
      if i :| 0 <= i < n && snapshot in problem.Reported(windows[..n][i]) {
        assert windows[..n][i] == windows[i];
      }
    }
  }

  /** No snapshot is reported twice, so none is costed twice. */
  lemma {:induction false} NoneIsReportedTwice(problem: Problem, cells: Cells, windows: seq<SolveWindow>)
    requires AreInOrder(windows) && AreDistinct(problem.snapshots)
    ensures AreDistinct(problem.Run(cells, windows).reported)
  {
    hide Filter, Problem.Solving, ReportedCost, Written, LookAheadZeroed, AreInOrder, AreDistinct;
    if |windows| > 0 {
      var n := |windows| - 1;
      var front, window := windows[..n], windows[n];
      OrderOfPrefix(windows, n);
      NoneIsReportedTwice(problem, cells, front);
      FilterKeepsDistinct(problem.snapshots, IsBetween(window.solveFrom, window.keepTo));
      forall snapshot | snapshot in problem.Run(cells, front).reported ensures snapshot !in problem.Reported(window) {
        ReportedByRun(problem, cells, front, snapshot);
        var i :| 0 <= i < n && snapshot in problem.Reported(front[i]);
        ReportedOnce(problem, windows, i, n, snapshot);
      }
      ConcatKeepsDistinct(problem.Run(cells, front).reported, problem.Reported(window));
    } else {
      assert AreDistinct<int>([]) by { NothingIsRepeated(); }
    }
  }

  lemma NothingIsRepeated()
    ensures AreDistinct<int>([])
  {
  }

  lemma ReportedOnce(problem: Problem, windows: seq<SolveWindow>, i: nat, j: nat, snapshot: int)
    requires AreInOrder(windows) && i < j < |windows| && snapshot in problem.Reported(windows[i])
    ensures snapshot !in problem.Reported(windows[j])
  {
  }

  lemma {:induction false} CostOfConcat(cells: Cells, a: seq<int>, b: seq<int>, cost: OperatingCost)
    ensures ReportedCost(cells, a + b, cost) == ReportedCost(cells, a, cost) + ReportedCost(cells, b, cost)
  {
    if |b| == 0 {
      assert a + b == a;
    } else {
      assert (a + b)[..|a + b| - 1] == a + b[..|b| - 1];
      CostOfConcat(cells, a, b[..|b| - 1], cost);
    }
  }

  lemma {:induction false} CostReadsOnlyItsSnapshots(a: Cells, b: Cells, reported: seq<int>, cost: OperatingCost)
    requires forall snapshot :: snapshot in reported ==> Slice(a, snapshot) == Slice(b, snapshot)
    ensures ReportedCost(a, reported, cost) == ReportedCost(b, reported, cost)
  {
    if |reported| != 0 {
      CostReadsOnlyItsSnapshots(a, b, reported[..|reported| - 1], cost);
    }
  }

  lemma {:induction false} CostedIsReported(problem: Problem, cells: Cells, windows: seq<SolveWindow>)
    ensures forall snapshot :: snapshot in problem.Run(cells, windows).costed ==>
              snapshot in problem.Run(cells, windows).reported
    ensures (forall condition :: condition in problem.Run(cells, windows).conditions ==> condition == OPTIMAL) ==>
              problem.Run(cells, windows).costed == problem.Run(cells, windows).reported
  {
    hide Filter, Problem.Reported, Problem.Solving, ReportedCost, Written, LookAheadZeroed;
    if |windows| > 0 {
      var front, run := problem.Run(cells, windows[..|windows| - 1]), problem.Run(cells, windows);
      CostedIsReported(problem, cells, windows[..|windows| - 1]);
      assert forall condition :: condition in front.conditions ==> condition in run.conditions;
      if run.conditions != front.conditions {
        assert run.conditions[|run.conditions| - 1] in run.conditions;
      }
    }
  }

  lemma StepCosts(problem: Problem, state: RunState, window: SolveWindow)
    requires forall snapshot :: snapshot in state.costed && |problem.Reported(window)| > 0 ==>
               snapshot !in problem.Solving(window)
    requires state.objective == ReportedCost(state.cells, state.costed, problem.cost)
    ensures var next := problem.Step(state, window);
            next.objective == ReportedCost(next.cells, next.costed, problem.cost)
  {
    hide Filter, Problem.Reported, Problem.Solving, ReportedCost, Slice, Written, LookAheadZeroed;
    if |problem.Reported(window)| > 0 {
      var next, reported := problem.Step(state, window), problem.Reported(window);
      forall snapshot | snapshot in state.costed ensures Slice(next.cells, snapshot) == Slice(state.cells, snapshot) {
        StepLeavesOthers(problem, state, window, snapshot);
      }
      forall snapshot | snapshot in reported
        ensures Slice(next.cells, snapshot) == Slice(problem.SolvedCells(state, window), snapshot)
      {
        StepKeepsReported(problem, state, window, snapshot);
      }
      CostReadsOnlyItsSnapshots(next.cells, state.cells, state.costed, problem.cost);
      CostReadsOnlyItsSnapshots(next.cells, problem.SolvedCells(state, window), reported, problem.cost);
      CostOfConcat(next.cells, state.costed, reported, problem.cost);
      assert state.costed + [] == state.costed;
    }
  }

  /** The objective is the cost of the values the network holds in the end, over the reported
      snapshots of the windows that were optimal. */
  lemma {:induction false} ObjectiveIsTheCostKept(problem: Problem, cells: Cells, windows: seq<SolveWindow>)
    requires AreInOrder(windows)
    ensures var final := problem.Run(cells, windows);
            final.objective == ReportedCost(final.cells, final.costed, problem.cost)
  {
    hide Filter, Problem.Reported, Problem.Solving, Problem.Step, AreInOrder;
    if |windows| > 0 {
      var n := |windows| - 1;
      var front := windows[..n];
      OrderOfPrefix(windows, n);
      ObjectiveIsTheCostKept(problem, cells, front);
      CostedIsReported(problem, cells, front);
      var state := problem.Run(cells, front);
      forall snapshot | snapshot in state.costed ensures snapshot !in problem.Solving(windows[n]) {
        ReportedByRun(problem, cells, front, snapshot);
        var i :| 0 <= i < n && snapshot in problem.Reported(front[i]);
        LaterWindowSolvesLater(problem, windows, i, n, snapshot);
      }
      StepCosts(problem, state, windows[n]);
    }
  }

  /** So where every window is optimal it is the cost of every reported snapshot, each once. */
  lemma AllOptimalCostsEveryReportedSnapshot(problem: Problem, cells: Cells, windows: seq<SolveWindow>)
    requires AreInOrder(windows) && AreDistinct(problem.snapshots)
    requires Combine(problem.Run(cells, windows).conditions) == AllOptimal
    ensures var final := problem.Run(cells, windows);
            && final.objective == ReportedCost(final.cells, final.reported, problem.cost)
            && AreDistinct(final.reported)
  {
    ObjectiveIsTheCostKept(problem, cells, windows);
    CostedIsReported(problem, cells, windows);
    NoneIsReportedTwice(problem, cells, windows);
  }

  /** The network lists each reported snapshot once, earliest first. */
  lemma ReportedAreListedInOrder(problem: Problem, cells: Cells, windows: seq<SolveWindow>)
    requires AreInOrder(windows) && AreDistinct(problem.snapshots)
    ensures var listed := StableSort(problem.Run(cells, windows).reported, Itself);
            && multiset(listed) == multiset(problem.Run(cells, windows).reported)
            && forall i, j :: 0 <= i < j < |listed| ==> listed[i] < listed[j]
  {
    hide Problem.Run;
    var reported := problem.Run(cells, windows).reported;
    var listed := StableSort(reported, Itself);
    NoneIsReportedTwice(problem, cells, windows);
    SortCounts(reported, Itself);
    StableSortSorts(reported, Itself);
    forall i, j | 0 <= i < j < |listed| ensures listed[i] < listed[j] {
      assert Itself(listed[i]) <= Itself(listed[j]);
      if listed[i] == listed[j] {
        CountedTwice(listed, i, j);
        DistinctCountOnce(reported, listed[i]);
      }
    }
  }

  lemma CountedTwice(s: seq<int>, i: nat, j: nat)
    requires i < j < |s| && s[i] == s[j]
    ensures multiset(s)[s[i]] >= 2
  {
    assert s == s[..j] + s[j..];
    assert s[..j][i] in s[..j] && s[j..][0] in s[j..];
  }

  lemma {:induction false} DistinctCountOnce(s: seq<int>, x: int)
    requires AreDistinct(s)
    ensures multiset(s)[x] <= 1
  {
    if |s| != 0 {
      var front, last := s[..|s| - 1], s[|s| - 1];
      assert s == front + [last];
      assert forall i :: 0 <= i < |front| ==> front[i] == s[i] != last;
      DistinctCountOnce(front, x);
    }
  }

  /** An optimal window reporting one snapshot adds just what that snapshot costs with the values
      the network is left holding for it. */
  lemma LoneSnapshotAddsItsCost(problem: Problem, cells: Cells, windows: seq<SolveWindow>, snapshot: int)
    requires |windows| > 0
    ensures var front, window := windows[..|windows| - 1], windows[|windows| - 1];
            var before, after := problem.Run(cells, front), problem.Run(cells, windows);
            problem.Reported(window) == [snapshot] ==>
              after.objective == before.objective
                + if problem.OutcomeOf(before, window).condition == "optimal"
                  then problem.cost(snapshot, Slice(after.cells, snapshot)) else 0.0
  {
    hide Filter, Problem.Reported, Problem.Solving, Slice, LookAheadZeroed, Written;
    var front, window := windows[..|windows| - 1], windows[|windows| - 1];
    var before := problem.Run(cells, front);
    if problem.Reported(window) == [snapshot] {
      assert snapshot in problem.Reported(window);
      StepKeepsReported(problem, before, window, snapshot);
      LoneCost(problem.SolvedCells(before, window), snapshot, problem.cost);
    }
  }

  lemma LoneCost(cells: Cells, snapshot: int, cost: OperatingCost)
    ensures ReportedCost(cells, [snapshot], cost) == cost(snapshot, Slice(cells, snapshot))
  {
    assert ReportedCost(cells, [snapshot][..0], cost) == 0.0;
  }

  ghost function RaisedCost(cost: OperatingCost, snapshot: int, rise: real): OperatingCost {
    (t: int, values: map<string, real>) => if t == snapshot then cost(t, values) + rise else cost(t, values)
  }

  /** `rise` for each time the snapshot is listed. */
  ghost function TotalRise(costed: seq<int>, snapshot: int, rise: real): real {
    if |costed| == 0 then 0.0
    else TotalRise(costed[..|costed| - 1], snapshot, rise) + if costed[|costed| - 1] == snapshot then rise else 0.0
  }

  lemma {:induction false} TotalRiseOfConcat(a: seq<int>, b: seq<int>, snapshot: int, rise: real)
    ensures TotalRise(a + b, snapshot, rise) == TotalRise(a, snapshot, rise) + TotalRise(b, snapshot, rise)
  {
    if |b| == 0 {
      assert a + b == a;
    } else {
      assert (a + b)[..|a + b| - 1] == a + b[..|b| - 1];
      TotalRiseOfConcat(a, b[..|b| - 1], snapshot, rise);
    }
  }

  lemma {:induction false} TotalRiseOfDistinct(costed: seq<int>, snapshot: int, rise: real)
    requires AreDistinct(costed)
    ensures TotalRise(costed, snapshot, rise) == if snapshot in costed then rise else 0.0
  {
    if |costed| != 0 {
      var front, last := costed[..|costed| - 1], costed[|costed| - 1];
      assert forall i :: 0 <= i < |front| ==> front[i] == costed[i] != last;
      assert costed == front + [last];
      TotalRiseOfDistinct(front, snapshot, rise);
    }
  }

  lemma {:induction false} RaisedReportedCost(
    cells: Cells, reported: seq<int>, cost: OperatingCost, snapshot: int, rise: real)
    ensures ReportedCost(cells, reported, RaisedCost(cost, snapshot, rise))
            == ReportedCost(cells, reported, cost) + TotalRise(reported, snapshot, rise)
  {
    hide Slice;
    if |reported| != 0 {
      RaisedReportedCost(cells, reported[..|reported| - 1], cost, snapshot, rise);
    }
  }

  ghost predicate IsRaised(raised: RunState, state: RunState, snapshot: int, rise: real) {
    raised == state.(objective := state.objective + TotalRise(state.costed, snapshot, rise))
  }

  lemma RaisingInOneStep(problem: Problem, state: RunState, raised: RunState, window: SolveWindow, snapshot: int, rise: real)
    requires IsRaised(raised, state, snapshot, rise)
    ensures IsRaised(problem.(cost := RaisedCost(problem.cost, snapshot, rise)).Step(raised, window),
                     problem.Step(state, window), snapshot, rise)
  {
    hide Filter, Slice, ReportedCost, Written, LookAheadZeroed, RaisedCost, TotalRise;
    RaisedReportedCost(problem.SolvedCells(state, window), problem.Reported(window), problem.cost, snapshot, rise);
    TotalRiseOfConcat(state.costed, problem.Reported(window), snapshot, rise);
    assert state.costed + [] == state.costed;
  }

  lemma {:induction false} RaisingEveryStep(
    problem: Problem, cells: Cells, windows: seq<SolveWindow>, snapshot: int, rise: real)
    ensures IsRaised(problem.(cost := RaisedCost(problem.cost, snapshot, rise)).Run(cells, windows),
                     problem.Run(cells, windows), snapshot, rise)
  {
    hide Problem.Step, RaisedCost;
    var costlier := problem.(cost := RaisedCost(problem.cost, snapshot, rise));
    if |windows| > 0 {
      var n := |windows| - 1;
      RaisingEveryStep(problem, cells, windows[..n], snapshot, rise);
      RaisingInOneStep(problem, problem.Run(cells, windows[..n]), costlier.Run(cells, windows[..n]), windows[n], snapshot, rise);
    }
  }

  lemma {:induction false} CostedAreDistinct(problem: Problem, cells: Cells, windows: seq<SolveWindow>)
    requires AreDistinct(problem.Run(cells, windows).reported)
    ensures AreDistinct(problem.Run(cells, windows).costed)
  {
    hide Filter, Problem.Reported, Problem.SolvedCells, Problem.OutcomeOf, ReportedCost, LookAheadZeroed, Written;
    if |windows| > 0 {
      var front, window := windows[..|windows| - 1], windows[|windows| - 1];
      var before, after, reported := problem.Run(cells, front), problem.Run(cells, windows), problem.Reported(window);
      if |reported| > 0 {
        assert after.reported == before.reported + reported;
        assert forall i :: 0 <= i < |before.reported| ==> before.reported[i] == after.reported[i];
        CostedAreDistinct(problem, cells, front);
        CostedIsReported(problem, cells, front);
        PartsOfDistinct(before.reported, reported);
        assert forall x :: x in reported ==> x !in before.costed;
        ConcatKeepsDistinct(before.costed, reported);
        assert before.costed + [] == before.costed;
      } else {
        CostedAreDistinct(problem, cells, front);
      }
    }
  }

  lemma PartsOfDistinct(a: seq<int>, b: seq<int>)
    requires AreDistinct(a + b)
    ensures AreDistinct(b) && forall x :: x in b ==> x !in a
  {
    forall i, j | 0 <= i < |a| && 0 <= j < |b| ensures a[i] != b[j] {
      assert (a + b)[i] == a[i] && (a + b)[|a| + j] == b[j];
    }
    forall i, j | 0 <= i < j < |b| ensures b[i] != b[j] {
      assert (a + b)[|a| + i] == b[i] && (a + b)[|a| + j] == b[j];
    }
  }

  /** Raising one snapshot's cost changes nothing but the objective, which rises by just as much
      where that snapshot is costed and stays where it is not. */
  lemma RaisingOneCost(problem: Problem, cells: Cells, windows: seq<SolveWindow>, snapshot: int, rise: real)
    requires AreInOrder(windows) && AreDistinct(problem.snapshots)
    ensures var final := problem.Run(cells, windows);
            problem.(cost := RaisedCost(problem.cost, snapshot, rise)).Run(cells, windows)
            == final.(objective := if snapshot in final.costed then final.objective + rise else final.objective)
  {
    hide Problem.Run, TotalRise, RaisedCost;
    NoneIsReportedTwice(problem, cells, windows);
    CostedAreDistinct(problem, cells, windows);
    RaisingEveryStep(problem, cells, windows, snapshot, rise);
    TotalRiseOfDistinct(problem.Run(cells, windows).costed, snapshot, rise);
  }

  lemma {:induction false} FreeSnapshotsCostNothing(problem: Problem, cells: Cells, windows: seq<SolveWindow>)
    requires forall snapshot, values :: problem.cost(snapshot, values) == 0.0
    ensures problem.Run(cells, windows).objective == 0.0
  {
    hide Filter, Slice, Written, LookAheadZeroed;
    if |windows| > 0 {
      var front, window := windows[..|windows| - 1], windows[|windows| - 1];
      FreeSnapshotsCostNothing(problem, cells, front);
      NoCost(problem.SolvedCells(problem.Run(cells, front), window), problem.Reported(window), problem.cost);
    }
  }

  lemma {:induction false} NoCost(cells: Cells, reported: seq<int>, cost: OperatingCost)
    requires forall snapshot, values :: cost(snapshot, values) == 0.0
    ensures ReportedCost(cells, reported, cost) == 0.0
  {
    if |reported| != 0 {
      NoCost(cells, reported[..|reported| - 1], cost);
    }
  }

  lemma CombineOneMore(conditions: seq<string>, condition: string)
    ensures Combine(conditions + [condition]) == AllOptimal <==> Combine(conditions) == AllOptimal && condition == "optimal"
    ensures Combine([]) == AllOptimal
  {
    var more := conditions + [condition];
    assert more[|conditions|] in more;
    assert forall c :: c in conditions ==> c in more;
  }

  /** Whether every window that reported a snapshot was optimal. */
  ghost predicate EveryWindowIsOptimal(problem: Problem, cells: Cells, windows: seq<SolveWindow>) {
    forall i :: 0 <= i < |windows| && |problem.Reported(windows[i])| > 0 ==>
      problem.OutcomeOf(problem.Run(cells, windows[..i]), windows[i]).condition == "optimal"
  }

  lemma OptimalOneMore(problem: Problem, cells: Cells, windows: seq<SolveWindow>)
    requires |windows| > 0
    ensures var front, window := windows[..|windows| - 1], windows[|windows| - 1];
            EveryWindowIsOptimal(problem, cells, windows) <==>
              EveryWindowIsOptimal(problem, cells, front)
              && (|problem.Reported(window)| > 0 ==>
                    problem.OutcomeOf(problem.Run(cells, front), window).condition == "optimal")
  {
    hide Filter, Problem.Reported, Problem.OutcomeOf, Problem.Run;
    var front := windows[..|windows| - 1];
    assert forall i :: 0 <= i < |front| ==> front[i] == windows[i] && front[..i] == windows[..i];
  }

  /** The run is called optimal exactly when every window that reported a snapshot was. */
  lemma {:induction false} AllOptimalExactlyWhen(problem: Problem, cells: Cells, windows: seq<SolveWindow>)
    ensures Combine(problem.Run(cells, windows).conditions) == AllOptimal <==> EveryWindowIsOptimal(problem, cells, windows)
  {
    hide Filter, Problem.Reported, Problem.OutcomeOf, ReportedCost, LookAheadZeroed, Problem.SolvedCells, Combine, EveryWindowIsOptimal;
    if |windows| > 0 {
      var front, window := windows[..|windows| - 1], windows[|windows| - 1];
      AllOptimalExactlyWhen(problem, cells, front);
      OptimalOneMore(problem, cells, windows);
      var before := problem.Run(cells, front);
      CombineOneMore(before.conditions, problem.OutcomeOf(before, window).condition);
    } else {
      NoWindowsAreOptimal(problem, cells);
    }
  }

  lemma NoWindowsAreOptimal(problem: Problem, cells: Cells)
    ensures EveryWindowIsOptimal(problem, cells, []) && Combine(problem.Run(cells, []).conditions) == AllOptimal
  {
  }

  // ---- The windows a date range is cut into ----

  lemma {:induction false} ContiguousWindowsAreInOrder(windows: seq<SolveWindow>, i: int, j: int)
    requires forall k :: 0 <= k < |windows| ==> windows[k].solveFrom < windows[k].keepTo
    requires forall k :: 0 <= k < |windows| - 1 ==> windows[k + 1].solveFrom == windows[k].keepTo + 1
    requires 0 <= i < j < |windows|
    ensures windows[i].keepTo < windows[j].solveFrom
    decreases j
  {
    if i < j - 1 {
      ContiguousWindowsAreInOrder(windows, i, j - 1);
    }
    assert windows[j - 1 + 1].solveFrom == windows[j - 1].keepTo + 1;
  }

  lemma ContiguousWindowsStayInside(windows: seq<SolveWindow>, i: nat)
    requires forall k :: 0 <= k < |windows| ==> windows[k].solveFrom < windows[k].keepTo
    requires forall k :: 0 <= k < |windows| - 1 ==> windows[k + 1].solveFrom == windows[k].keepTo + 1
    requires i < |windows|
    ensures windows[0].solveFrom <= windows[i].solveFrom && windows[i].keepTo <= windows[|windows| - 1].keepTo
  {
    if 0 < i {
      ContiguousWindowsAreInOrder(windows, 0, i);
    }
    if i < |windows| - 1 {
      ContiguousWindowsAreInOrder(windows, i, |windows| - 1);
    }
  }

  lemma CutWindowsAreInOrder(start: Date, end: Date, length: WindowLength, lookAheadDays: nat)
    requires IsDate(start) && IsDate(end)
    ensures AreInOrder(WindowsOf(Spans(start, end, length), lookAheadDays))
  {
    hide IsDate, Spans, WindowOf;
    WindowsAreContiguous(start, end, length, lookAheadDays);
    var windows := WindowsOf(Spans(start, end, length), lookAheadDays);
    forall i, j | 0 <= i < j < |windows| ensures windows[i].keepTo < windows[j].solveFrom {
      ContiguousWindowsAreInOrder(windows, i, j);
    }
  }

  /** Solving a date range reports exactly the network's snapshots inside it. */
  lemma RangeIsReportedExactly(
    problem: Problem, cells: Cells, start: Date, end: Date, length: WindowLength, lookAheadDays: nat, snapshot: int)
    requires IsDate(start) && IsDate(end) && AtMost(start, end)
    ensures snapshot in problem.Run(cells, WindowsOf(Spans(start, end, length), lookAheadDays)).reported <==>
            snapshot in problem.snapshots && StartOfDay(start) <= snapshot <= EndOfDay(end)
  {
    hide IsDate, AtMost, Spans, Problem.Run, Problem.Reported, Problem.Solving, StartOfDay, EndOfDay;
    var windows := WindowsOf(Spans(start, end, length), lookAheadDays);
    WindowsAreContiguous(start, end, length, lookAheadDays);
    ReportedByRun(problem, cells, windows, snapshot);
    if StartOfDay(start) <= snapshot <= EndOfDay(end) {
      var i := EverySecondHasOneWindow(start, end, length, lookAheadDays, snapshot);
      ReportedMembers(problem, windows[i], snapshot);
    }
    if i :| 0 <= i < |windows| && snapshot in problem.Reported(windows[i]) {
      ReportedMembers(problem, windows[i], snapshot);
      ContiguousWindowsStayInside(windows, i);
    }
  }
}
