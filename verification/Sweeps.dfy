/** Parameter sweeps with checkpoints (sweep.py, checkpoint.py). What the instrument does at each
    point of one run is a `World`. */
module Sweeps {
  import opened Codec
  import opened Instrument
  import opened Options
  import opened Seqs

  // ----- The points of a sweep -----

  datatype Value = Number(r: real) | Text(s: string) | Flag(b: bool) | List(xs: seq<Value>)

  type Params = map<string, Value>

  /** One swept parameter and its values. */
  datatype Axis = Axis(name: string, values: seq<Value>)

  datatype Point = Point(index: nat, assignment: seq<(string, Value)>, params: Params)

  /** `first` put before every one of `combos`. */
  function Prepend(first: Value, combos: seq<seq<Value>>): (r: seq<seq<Value>>)
    ensures |r| == |combos| && forall i :: 0 <= i < |combos| ==> r[i] == [first] + combos[i]
  {
    seq(|combos|, i requires 0 <= i < |combos| => [first] + combos[i])
  }

  function Spread(values: seq<Value>, combos: seq<seq<Value>>): seq<seq<Value>> {
    if values == [] then [] else Spread(values[..|values| - 1], combos) + Prepend(values[|values| - 1], combos)
  }

  /** The cartesian product, last axis fastest. */
  function Combos(axes: seq<Axis>): seq<seq<Value>> {
    if axes == [] then [[]] else Spread(axes[0].values, Combos(axes[1..]))
  }

  function ComboCount(axes: seq<Axis>): nat {
    if axes == [] then 1 else |axes[0].values| * ComboCount(axes[1..])
  }

  lemma {:induction false} SpreadAt(values: seq<Value>, combos: seq<seq<Value>>, i: nat, j: nat)
    requires i < |values| && j < |combos|
    ensures |Spread(values, combos)| == |values| * |combos|
    ensures i * |combos| + j < |values| * |combos|
    ensures Spread(values, combos)[i * |combos| + j] == [values[i]] + combos[j]
  {
    SpreadCount(values, combos);
    IndexInside(i, j, |values|, |combos|);
    var n := |values| - 1;
    SpreadCount(values[..n], combos);
    if i < n {
      SpreadAt(values[..n], combos, i, j);
    }
  }

  lemma {:induction false} SpreadCount(values: seq<Value>, combos: seq<seq<Value>>)
    ensures |Spread(values, combos)| == |values| * |combos|
  {
    if values != [] {
      SpreadCount(values[..|values| - 1], combos);
      MulStep(|values| - 1, |combos|);
    }
  }

  lemma {:induction false} CombosCount(axes: seq<Axis>)
    ensures |Combos(axes)| == ComboCount(axes)
  {
    if axes != [] {
      CombosCount(axes[1..]);
      SpreadCount(axes[0].values, Combos(axes[1..]));
    }
  }

  /** The position of a choice of one value per axis: mixed radix, last axis fastest. */
  function Position(axes: seq<Axis>, choice: seq<nat>): nat
    requires |choice| == |axes|
  {
    if axes == [] then 0 else choice[0] * ComboCount(axes[1..]) + Position(axes[1..], choice[1..])
  }

  function Chosen(axes: seq<Axis>, choice: seq<nat>): (r: seq<Value>)
    requires |choice| == |axes| && forall i :: 0 <= i < |axes| ==> choice[i] < |axes[i].values|
    ensures |r| == |axes|
  {
    seq(|axes|, i requires 0 <= i < |axes| => axes[i].values[choice[i]])
  }

  /** Every choice of one value per axis is one of the combinations, at its mixed-radix position. */
  lemma {:induction false} ComboAt(axes: seq<Axis>, choice: seq<nat>)
    requires |choice| == |axes| && forall i :: 0 <= i < |axes| ==> choice[i] < |axes[i].values|
    ensures Position(axes, choice) < |Combos(axes)|
    ensures Combos(axes)[Position(axes, choice)] == Chosen(axes, choice)
  {
    if axes != [] {
      var rest := axes[1..];
      ComboAt(rest, choice[1..]);
      CombosCount(rest);
      SpreadAt(axes[0].values, Combos(rest), choice[0], Position(rest, choice[1..]));
      assert Chosen(axes, choice) == [axes[0].values[choice[0]]] + Chosen(rest, choice[1..]);
    }
  }

  /** The choice at a position. */
  function ChoiceAt(axes: seq<Axis>, k: nat): (choice: seq<nat>)
    requires k < ComboCount(axes)
    ensures |choice| == |axes| && forall i :: 0 <= i < |axes| ==> choice[i] < |axes[i].values|
  {
    if axes == [] then []
    else
      var per := ComboCount(axes[1..]);
      RowColInside(k, |axes[0].values|, per);
      [k / per] + ChoiceAt(axes[1..], k % per)
  }

  lemma {:induction false} PositionOfChoice(axes: seq<Axis>, k: nat)
    requires k < ComboCount(axes)
    ensures Position(axes, ChoiceAt(axes, k)) == k
  {
    if axes != [] {
      var per := ComboCount(axes[1..]);
      RowColInside(k, |axes[0].values|, per);
      PositionOfChoice(axes[1..], k % per);
      assert ChoiceAt(axes, k)[1..] == ChoiceAt(axes[1..], k % per);
    }
  }

  function Assignment(axes: seq<Axis>, combo: seq<Value>): (r: seq<(string, Value)>) {
    if axes == [] || combo == [] then [] else [(axes[0].name, combo[0])] + Assignment(axes[1..], combo[1..])
  }

  /** Later entries win, as in a dict display. */
  function Merged(base: Params, assignment: seq<(string, Value)>): Params {
    if assignment == [] then base
    else Merged(base, assignment[..|assignment| - 1])[assignment[|assignment| - 1].0 := assignment[|assignment| - 1].1]
  }

  function PointOf(axes: seq<Axis>, base: Params, combo: seq<Value>, index: nat): Point {
    var assignment := Assignment(axes, combo);
    Point(index, assignment, Merged(base, assignment))
  }

  function PointsOf(axes: seq<Axis>, base: Params, combos: seq<seq<Value>>): (points: seq<Point>)
    ensures |points| == |combos| && forall i :: 0 <= i < |combos| ==> points[i] == PointOf(axes, base, combos[i], i)
  {
    seq(|combos|, i requires 0 <= i < |combos| => PointOf(axes, base, combos[i], i))
  }

  /** One axis, when given by parameter and values. */
  function AxesOf(parameter: Option<string>, values: Option<seq<Value>>, several: seq<Axis>): Option<seq<Axis>> {
    if several != [] then Some(several)
    else if parameter.None? || values.None? then None
    else Some([Axis(parameter.value, values.value)])
  }

  lemma {:induction false} SingleAxis(axis: Axis, i: nat)
    requires i < |axis.values|
    ensures |Combos([axis])| == |axis.values| && Combos([axis])[i] == [axis.values[i]]
  {
    assert [axis][1..] == [] && Combos([]) == [[]];
    SpreadAt(axis.values, [[]], i, 0);
    assert [axis.values[i]] + [] == [axis.values[i]];
  }

  /** None where the source raises. */
  method ResolvePoints(base: Params, parameter: Option<string>, values: Option<seq<Value>>, several: seq<Axis>)
    returns (points: Option<seq<Point>>)
    ensures var axes := AxesOf(parameter, values, several);
      points == if axes.None? then None else Some(PointsOf(axes.value, base, Combos(axes.value)))
  {
    var list: seq<Point> := [];
    if several != [] {
      var combos := Combos(several);
      for index := 0 to |combos|
        invariant list == PointsOf(several, base, combos)[..index]
      {
        list := list + [PointOf(several, base, combos[index], index)];
      }
      TakeAll(PointsOf(several, base, combos));
    } else if parameter.None? || values.None? {
      return None;
    } else {
      ghost var axis := Axis(parameter.value, values.value);
      ghost var all := PointsOf([axis], base, Combos([axis]));
      SingleCount(axis);
      for index := 0 to |values.value|
        invariant list == all[..index]
      {
        var value := values.value[index];
        SingleAxis(axis, index);
        SinglePoint(axis, base, value, index);
        list := list + [Point(index, [(parameter.value, value)], base[parameter.value := value])];
      }
      TakeAll(all);
    }
    return Some(list);
  }

  lemma SingleCount(axis: Axis)
    ensures |Combos([axis])| == |axis.values|
  {
    assert [axis][1..] == [] && Combos([]) == [[]];
    SpreadCount(axis.values, [[]]);
  }

  lemma SinglePoint(axis: Axis, base: Params, value: Value, index: nat)
    ensures PointOf([axis], base, [value], index) == Point(index, [(axis.name, value)], base[axis.name := value])
  {
    var pair := [(axis.name, value)];
    assert Assignment([axis], [value]) == pair;
    assert pair[..|pair| - 1] == [];
    assert Merged(base, []) == base;
  }

  /** The swept parameters have the chosen values, all others those of the base. */
  lemma {:induction false} MergedExactly(base: Params, assignment: seq<(string, Value)>, name: string)
    requires forall i, j :: 0 <= i < j < |assignment| ==> assignment[i].0 != assignment[j].0
    ensures forall i :: 0 <= i < |assignment| && assignment[i].0 == name ==>
      name in Merged(base, assignment) && Merged(base, assignment)[name] == assignment[i].1
    ensures (forall i :: 0 <= i < |assignment| ==> assignment[i].0 != name) ==>
      (name in Merged(base, assignment) <==> name in base)
        && (name in base ==> Merged(base, assignment)[name] == base[name])
  {
    if assignment != [] {
      MergedExactly(base, assignment[..|assignment| - 1], name);
    }
  }

  lemma {:induction false} AssignmentAt(axes: seq<Axis>, combo: seq<Value>, i: nat)
    requires |combo| == |axes|
    ensures |Assignment(axes, combo)| == |axes|
    ensures i < |axes| ==> Assignment(axes, combo)[i] == (axes[i].name, combo[i])
  {
    if axes != [] {
      AssignmentAt(axes[1..], combo[1..], if i > 0 then i - 1 else 0);
    }
  }

  lemma ParamOfPoint(axes: seq<Axis>, base: Params, combo: seq<Value>, index: nat, i: nat)
    requires |combo| == |axes| && i < |axes|
    requires forall k, j :: 0 <= k < j < |axes| ==> axes[k].name != axes[j].name
    ensures var p := PointOf(axes, base, combo, index);
      axes[i].name in p.params && p.params[axes[i].name] == combo[i] && p.index == index
  {
    var assignment := Assignment(axes, combo);
    AssignmentAt(axes, combo, i);
    forall k, j | 0 <= k < j < |assignment|
      ensures assignment[k].0 != assignment[j].0
    {
      AssignmentAt(axes, combo, k);
      AssignmentAt(axes, combo, j);
    }
    MergedExactly(base, assignment, axes[i].name);
  }

  /** The point at the position of a choice is acquired with the chosen value of every swept parameter. */
  lemma PointHasChoice(axes: seq<Axis>, base: Params, choice: seq<nat>, i: nat)
    requires |choice| == |axes| && (forall k :: 0 <= k < |axes| ==> choice[k] < |axes[k].values|) && i < |axes|
    requires forall k, j :: 0 <= k < j < |axes| ==> axes[k].name != axes[j].name
    ensures var k, points := Position(axes, choice), PointsOf(axes, base, Combos(axes));
      && k < |points| && points[k].index == k
      && axes[i].name in points[k].params && points[k].params[axes[i].name] == axes[i].values[choice[i]]
  {
    ComboAt(axes, choice);
    ParamOfPoint(axes, base, Combos(axes)[Position(axes, choice)], Position(axes, choice), i);
  }

  // ----- One run over the points -----

  datatype Outcome = Saved(path: Option<string>) | Failed(message: string)

  /** What one run meets: whether a stop is pending before a point, and how its acquisition ends. */
  datatype World = World(stop: nat -> bool, outcome: nat -> Outcome)

  datatype Summary = Summary(point: Point, hostPath: Option<string>)

  /** The recorded points with their paths, the results so far, the indices acquired and recorded. */
  datatype Progress = Progress(recorded: map<nat, Option<string>>, results: seq<Summary>, saved: seq<nat>)

  datatype End = Complete | Stopped | Broken(message: string)

  function Skipping(pr: Progress, p: Point, path: Option<string>): Progress {
    pr.(results := pr.results + [Summary(p, path)])
  }

  function Saving(pr: Progress, p: Point, path: Option<string>): Progress {
    Progress(pr.recorded[p.index := path], pr.results + [Summary(p, path)], pr.saved + [p.index])
  }

  /** The loop of `_run` from point `k` on; `skip` was recorded before the run. */
  function RunFrom(points: seq<Point>, k: nat, skip: map<nat, Option<string>>, pr: Progress, w: World): (Progress, End)
    requires k <= |points|
    decreases |points| - k
  {
    if k == |points| then (pr, Complete)
    else
      var p := points[k];
      if p.index in skip then
        RunFrom(points, k + 1, skip, Skipping(pr, p, skip[p.index]), w)
      else if w.stop(p.index) then (pr, Stopped)
      else
        match w.outcome(p.index)
        case Failed(message) => (pr, Broken(message))
        case Saved(path) => RunFrom(points, k + 1, skip, Saving(pr, p, path), w)
  }

  function Run(points: seq<Point>, recorded: map<nat, Option<string>>, w: World): (Progress, End) {
    RunFrom(points, 0, recorded, Progress(recorded, [], []), w)
  }

  datatype Reply =
    | Busy
    | NoPoints
    | NothingToResume
    | Error(message: string, completed: int, written: nat, results: seq<Summary>)
    | Done(completed: int, skipped: nat, written: nat, results: seq<Summary>)

  function ReplyOf(run: (Progress, End), skipped: nat): Reply {
    var (pr, end) := run;
    match end
    case Broken(message) => Error(message, |pr.results| - skipped, |pr.saved|, pr.results)
    case _ => Done(|pr.results|, skipped, |pr.saved|, pr.results)
  }

  // ----- The store and the runner -----

  datatype SweepRow = SweepRow(points: seq<Point>, done: bool)

  /** The latest sweep that is not done. */
  function LatestIncomplete(sweeps: seq<SweepRow>): (id: Option<nat>)
    ensures id.Some? ==> id.value < |sweeps| && !sweeps[id.value].done
    ensures id.Some? ==> forall i :: id.value < i < |sweeps| ==> sweeps[i].done
    ensures id.None? ==> forall i :: 0 <= i < |sweeps| ==> sweeps[i].done
  {
    if sweeps == [] then None
    else if !sweeps[|sweeps| - 1].done then Some(|sweeps| - 1)
    else LatestIncomplete(sweeps[..|sweeps| - 1])
  }

  /** Sweeps in order of creation, named by their position; the rows of each by point index. */
  class CheckpointStore {
    var sweeps: seq<SweepRow>
    var rows: map<nat, map<nat, Option<string>>>

    constructor ()
      ensures sweeps == [] && rows == map[]
    {
      sweeps, rows := [], map[];
    }

    function Recorded(id: nat): map<nat, Option<string>>
      reads this
    {
      if id in rows then rows[id] else map[]
    }

    method CreateSweep(points: seq<Point>) returns (id: nat)
      modifies this`sweeps
      ensures id == |old(sweeps)| && sweeps == old(sweeps) + [SweepRow(points, false)]
    {
      id := |sweeps|;
      sweeps := sweeps + [SweepRow(points, false)];
    }

    method SetDone(id: nat)
      requires id < |sweeps|
      modifies this`sweeps
      ensures sweeps == old(sweeps)[id := old(sweeps)[id].(done := true)]
    {
      sweeps := sweeps[id := sweeps[id].(done := true)];
    }

    /** Inserts or replaces. */
    method RecordPoint(id: nat, index: nat, path: Option<string>)
      modifies this`rows
      ensures rows == old(rows)[id := old(Recorded(id))[index := path]]
    {
      rows := rows[id := Recorded(id)[index := path]];
    }
  }

  /** Sweep ids are new: no rows of a sweep exist before it is created. */
  ghost predicate NoStrayRows(store: CheckpointStore)
    reads store
  {
    forall id :: id in store.rows ==> id < |store.sweeps|
  }

  class SweepRunner {
    const store: CheckpointStore
    var active: bool

    constructor (store: CheckpointStore)
      ensures this.store == store && !active
    {
      this.store := store;
      active := false;
    }

    method Start(busy: bool, base: Params, parameter: Option<string>, values: Option<seq<Value>>, several: seq<Axis>,
            w: World)
      returns (r: Reply)
      requires NoStrayRows(store)
      modifies this`active, store
      ensures NoStrayRows(store) && active == (old(active) || r.Done?)
      ensures var axes := AxesOf(parameter, values, several);
        if busy || old(active) then r == Busy && store.sweeps == old(store.sweeps) && store.rows == old(store.rows)
        else if axes.None? then r == NoPoints && store.sweeps == old(store.sweeps) && store.rows == old(store.rows)
        else
          var points := PointsOf(axes.value, base, Combos(axes.value));
          var id, run := |old(store.sweeps)|, Run(points, map[], w);
          && r == ReplyOf(run, 0)
          && store.sweeps == old(store.sweeps) + [SweepRow(points, !run.1.Broken?)]
          && store.Recorded(id) == run.0.recorded
          && forall k :: k != id ==> store.Recorded(k) == old(store.Recorded(k))
    {
      if busy || active {
        return Busy;
      }
      var points := ResolvePoints(base, parameter, values, several);
      if points.None? {
        return NoPoints;
      }
      var id := store.CreateSweep(points.value);
      r := Launch(id, points.value, map[], w);
    }

    method Resume(busy: bool, w: World) returns (r: Reply)
      requires NoStrayRows(store)
      modifies this`active, store
      ensures NoStrayRows(store) && active == (old(active) || r.Done?)
      ensures var pending := LatestIncomplete(old(store.sweeps));
        if busy || old(active) then r == Busy && store.sweeps == old(store.sweeps) && store.rows == old(store.rows)
        else if pending.None? then r == NothingToResume && store.sweeps == old(store.sweeps)
          && store.rows == old(store.rows)
        else
          var id := pending.value;
          var points, done := old(store.sweeps)[id].points, old(store.Recorded(id));
          var run := Run(points, done, w);
          && r == ReplyOf(run, |done|)
          && store.sweeps == old(store.sweeps)[id := SweepRow(points, !run.1.Broken?)]
          && store.Recorded(id) == run.0.recorded
          && forall k :: k != id ==> store.Recorded(k) == old(store.Recorded(k))
    {
      if busy || active {
        return Busy;
      }
      var pending := LatestIncomplete(store.sweeps);
      if pending.None? {
        return NothingToResume;
      }
      r := Launch(pending.value, store.sweeps[pending.value].points, store.Recorded(pending.value), w);
    }

    /** A completed sweep stays active for a moment after its reply. */
    method EndLinger()
      modifies this`active
      ensures !active
    {
      active := false;
    }

    method Launch(id: nat, points: seq<Point>, skip: map<nat, Option<string>>, w: World) returns (r: Reply)
      requires id < |store.sweeps| && store.sweeps[id] == SweepRow(points, false) && skip == store.Recorded(id)
      requires NoStrayRows(store)
      modifies this`active, store
      ensures NoStrayRows(store) && active == r.Done?
      ensures var run := Run(points, skip, w);
        && r == ReplyOf(run, |skip|)
        && store.sweeps == old(store.sweeps)[id := SweepRow(points, !run.1.Broken?)]
        && store.Recorded(id) == run.0.recorded
        && forall k :: k != id ==> store.Recorded(k) == old(store.Recorded(k))
    {
      active := true;
      var results: seq<Summary> := [];
      var written, skipped := 0, |skip|;
      ghost var saved: seq<nat> := [];
      ghost var run := Run(points, skip, w);
      var i := 0;
      while i < |points|
        invariant i <= |points| && written == |saved| && active
        invariant store.sweeps == old(store.sweeps) && NoStrayRows(store)
        invariant run == RunFrom(points, i, skip, Progress(store.Recorded(id), results, saved), w)
        invariant forall k :: k != id ==> store.Recorded(k) == old(store.Recorded(k))
        decreases |points| - i
      {
        var point := points[i];
        i := i + 1;
        if point.index in skip {
          results := results + [Summary(point, skip[point.index])];
        } else {
          if w.stop(point.index) {
            break;
          }
          var outcome := w.outcome(point.index);
          if outcome.Failed? {
            active := false;
            return Error(outcome.message, |results| - skipped, written, results);
          }
          store.RecordPoint(id, point.index, outcome.path);
          written, saved := written + 1, saved + [point.index];
          results := results + [Summary(point, outcome.path)];
        }
      }
      store.SetDone(id);
      return Done(|results|, skipped, written, results);
    }
  }

  // ----- Resuming is invisible -----

  ghost predicate Indexed(points: seq<Point>) {
    forall i :: 0 <= i < |points| ==> points[i].index == i
  }

  lemma PointsIndexed(axes: seq<Axis>, base: Params)
    ensures Indexed(PointsOf(axes, base, Combos(axes)))
  {
  }

  /** Every acquisition that succeeds at a point gives the path set for that point. */
  ghost predicate Agrees(w: World, paths: nat -> Option<string>) {
    forall i: nat :: w.outcome(i).Saved? ==> w.outcome(i).path == paths(i)
  }

  ghost predicate NeverStops(w: World) {
    forall i: nat :: !w.stop(i)
  }

  /** The first `m` points recorded. */
  function Prefix(paths: nat -> Option<string>, m: nat): (r: map<nat, Option<string>>)
    ensures |r| == m && (forall i: nat :: i in r <==> i < m) && forall i :: i in r ==> r[i] == paths(i)
  {
    if m == 0 then map[] else Prefix(paths, m - 1)[m - 1 := paths(m - 1)]
  }

  function Summaries(points: seq<Point>, paths: nat -> Option<string>, k: nat): (r: seq<Summary>)
    requires k <= |points|
    ensures |r| == k
  {
    if k == 0 then [] else Summaries(points, paths, k - 1) + [Summary(points[k - 1], paths(k - 1))]
  }

  /** The numbers from `a` up to but not including `b`. */
  function Range(a: nat, b: nat): (r: seq<nat>)
    ensures |r| == if a <= b then b - a else 0
    ensures forall i :: 0 <= i < |r| ==> r[i] == a + i
  {
    if a < b then Range(a, b - 1) + [b - 1] else []
  }

  /** The first point from `k` on whose acquisition fails; the number of points when none does. */
  function FirstFailure(w: World, k: nat, n: nat): (j: nat)
    requires k <= n
    ensures k <= j <= n && (forall i :: k <= i < j ==> w.outcome(i).Saved?) && (j < n ==> w.outcome(j).Failed?)
    decreases n - k
  {
    if k == n || w.outcome(k).Failed? then k else FirstFailure(w, k + 1, n)
  }

  /** Where a run stands before point `k` when `m` points were recorded before it. */
  function At(points: seq<Point>, paths: nat -> Option<string>, m: nat, k: nat): Progress
    requires m <= k <= |points|
  {
    Progress(Prefix(paths, k), Summaries(points, paths, k), Range(m, k))
  }

  function EndAt(w: World, j: nat, n: nat): End
    requires j < n ==> w.outcome(j).Failed?
  {
    if j < n then Broken(w.outcome(j).message) else Complete
  }

  lemma AtSaved(points: seq<Point>, paths: nat -> Option<string>, m: nat, k: nat)
    requires m <= k < |points| && points[k].index == k
    ensures At(points, paths, m, k + 1) == Saving(At(points, paths, m, k), points[k], paths(k))
  {
  }

  lemma RunStep(points: seq<Point>, k: nat, skip: map<nat, Option<string>>, pr: Progress, w: World)
    requires k < |points| && points[k].index == k && !w.stop(k)
    ensures k in skip ==>
      RunFrom(points, k, skip, pr, w) == RunFrom(points, k + 1, skip, Skipping(pr, points[k], skip[k]), w)
    ensures k !in skip && w.outcome(k).Saved? ==>
      RunFrom(points, k, skip, pr, w) == RunFrom(points, k + 1, skip, Saving(pr, points[k], w.outcome(k).path), w)
    ensures k !in skip && w.outcome(k).Failed? ==> RunFrom(points, k, skip, pr, w) == (pr, Broken(w.outcome(k).message))
  {
  }

  lemma {:induction false} RunSkips(points: seq<Point>, paths: nat -> Option<string>, skip: map<nat, Option<string>>,
          m: nat, k: nat, w: World)
    requires Indexed(points) && NeverStops(w) && k <= m <= |points|
    requires forall i: nat :: i < m ==> i in skip && skip[i] == paths(i)
    ensures RunFrom(points, k, skip, Progress(skip, Summaries(points, paths, k), []), w)
         == RunFrom(points, m, skip, Progress(skip, Summaries(points, paths, m), []), w)
    decreases m - k
  {
    if k < m {
      RunStep(points, k, skip, Progress(skip, Summaries(points, paths, k), []), w);
      RunSkips(points, paths, skip, m, k + 1, w);
    }
  }

  lemma SaveOne(points: seq<Point>, paths: nat -> Option<string>, skip: map<nat, Option<string>>, m: nat, k: nat,
          w: World)
    requires m <= k < |points| && points[k].index == k && !w.stop(k) && k !in skip
    requires w.outcome(k).Saved? && w.outcome(k).path == paths(k)
    ensures RunFrom(points, k, skip, At(points, paths, m, k), w)
      == RunFrom(points, k + 1, skip, At(points, paths, m, k + 1), w)
  {
    RunStep(points, k, skip, At(points, paths, m, k), w);
    AtSaved(points, paths, m, k);
  }

  lemma {:induction false} Constant<R>(f: nat -> R, k: nat, j: nat)
    requires k <= j && forall i: nat :: k <= i < j ==> f(i) == f(i + 1)
    ensures f(k) == f(j)
    decreases j - k
  {
    if k < j {
      Constant(f, k + 1, j);
    }
  }

  /** The outcome of a run, told from where it stands before point `k`. */
  function OutcomeFrom(points: seq<Point>, paths: nat -> Option<string>, skip: map<nat, Option<string>>, m: nat,
          w: World)
    : nat -> (Progress, End)
    requires m <= |points|
  {
    (k: nat) => if m <= k <= |points| then RunFrom(points, k, skip, At(points, paths, m, k), w)
                else RunFrom(points, m, skip, At(points, paths, m, m), w)
  }

  lemma OutcomeSame(points: seq<Point>, paths: nat -> Option<string>, skip: map<nat, Option<string>>, m: nat, i: nat,
          w: World)
    requires m <= i < |points| && points[i].index == i && !w.stop(i) && i !in skip
    requires w.outcome(i).Saved? && w.outcome(i).path == paths(i)
    ensures OutcomeFrom(points, paths, skip, m, w)(i) == OutcomeFrom(points, paths, skip, m, w)(i + 1)
  {
    SaveOne(points, paths, skip, m, i, w);
  }

  lemma RunSaves(points: seq<Point>, paths: nat -> Option<string>, skip: map<nat, Option<string>>, m: nat, j: nat,
          w: World)
    requires Indexed(points) && NeverStops(w) && Agrees(w, paths) && m <= j <= |points|
    requires forall i: nat :: m <= i ==> i !in skip
    requires forall i :: m <= i < j ==> w.outcome(i).Saved?
    ensures OutcomeFrom(points, paths, skip, m, w)(m) == OutcomeFrom(points, paths, skip, m, w)(j)
  {
    var f := OutcomeFrom(points, paths, skip, m, w);
    forall i: nat | m <= i < j
      ensures f(i) == f(i + 1)
    {
      OutcomeSame(points, paths, skip, m, i, w);
    }
    Constant(f, m, j);
  }

  /** One run over a sweep whose first `m` points are recorded: it goes on to the first failure. */
  lemma RunFromPrefix(points: seq<Point>, paths: nat -> Option<string>, m: nat, w: World)
    requires Indexed(points) && Agrees(w, paths) && NeverStops(w) && m <= |points|
    ensures var j := FirstFailure(w, m, |points|);
      Run(points, Prefix(paths, m), w) == (At(points, paths, m, j), EndAt(w, j, |points|))
  {
    var j := FirstFailure(w, m, |points|);
    RunSkips(points, paths, Prefix(paths, m), m, 0, w);
    assert At(points, paths, m, m) == Progress(Prefix(paths, m), Summaries(points, paths, m), []);
    RunSaves(points, paths, Prefix(paths, m), m, j, w);
    if j < |points| {
      RunStep(points, j, Prefix(paths, m), At(points, paths, m, j), w);
    }
  }

  /** A start and the resumes that follow it, each finding what the ones before recorded. */
  function Runs(points: seq<Point>, recorded: map<nat, Option<string>>, worlds: seq<World>)
    : (runs: seq<(Progress, End)>)
    ensures |runs| == |worlds|
    decreases |worlds|
  {
    if worlds == [] then []
    else
      var run := Run(points, recorded, worlds[0]);
      [run] + Runs(points, run.0.recorded, worlds[1..])
  }

  function AllSaved(runs: seq<(Progress, End)>): seq<nat> {
    if runs == [] then [] else runs[0].0.saved + AllSaved(runs[1..])
  }

  /** Nothing fails and nothing stops. */
  function Smooth(paths: nat -> Option<string>): World {
    World((i: nat) => false, (i: nat) => Saved(paths(i)))
  }

  lemma RangeJoin(a: nat, b: nat, c: nat)
    requires a <= b <= c
    ensures Range(a, b) + Range(b, c) == Range(a, c)
  {
  }

  /** After these runs the first `j` points are recorded, those from `m` on by exactly one run. */
  ghost predicate Reached(points: seq<Point>, paths: nat -> Option<string>, m: nat, runs: seq<(Progress, End)>, j: nat)
    requires runs != []
  {
    var (pr, end) := runs[|runs| - 1];
    && m <= j <= |points|
    && pr.recorded == Prefix(paths, j)
    && pr.results == Summaries(points, paths, j)
    && AllSaved(runs) == Range(m, j)
    && (end == Complete ==> j == |points|)
  }

  lemma ReachedLonger(points: seq<Point>, paths: nat -> Option<string>, m: nat, i: nat, run: (Progress, End),
          rest: seq<(Progress, End)>, j: nat)
    requires rest != [] && Reached(points, paths, i, rest, j) && m <= i && run.0.saved == Range(m, i)
    ensures Reached(points, paths, m, [run] + rest, j)
  {
    var runs := [run] + rest;
    assert runs[1..] == rest && runs[0] == run && runs[|runs| - 1] == rest[|rest| - 1];
    assert AllSaved(runs) == Range(m, i) + Range(i, j);
    RangeJoin(m, i, j);
  }

  lemma {:induction false} ResumesReach(points: seq<Point>, paths: nat -> Option<string>, m: nat, worlds: seq<World>)
    returns (j: nat)
    requires Indexed(points) && m <= |points| && worlds != []
    requires forall w :: w in worlds ==> Agrees(w, paths) && NeverStops(w)
    ensures Reached(points, paths, m, Runs(points, Prefix(paths, m), worlds), j)
    decreases |worlds|
  {
    var run := Run(points, Prefix(paths, m), worlds[0]);
    RunFromPrefix(points, paths, m, worlds[0]);
    j := FirstFailure(worlds[0], m, |points|);
    if |worlds| == 1 {
      assert Runs(points, Prefix(paths, m), worlds) == [run];
      assert AllSaved([run]) == run.0.saved;
    } else {
      var i := j;
      j := ResumesReach(points, paths, i, worlds[1..]);
      ReachedLonger(points, paths, m, i, run, Runs(points, Prefix(paths, i), worlds[1..]), j);
    }
  }

  lemma SmoothRun(points: seq<Point>, paths: nat -> Option<string>)
    requires Indexed(points)
    ensures Run(points, map[], Smooth(paths)) == (At(points, paths, 0, |points|), Complete)
  {
    assert Prefix(paths, 0) == map[];
    assert FirstFailure(Smooth(paths), 0, |points|) == |points|;
    RunFromPrefix(points, paths, 0, Smooth(paths));
  }

  /** Start a sweep and resume it after any number of failing runs, with no stop: once a run
      completes, its results are those of a single run in which nothing failed, every point has
      its row, and over all runs every point was recorded exactly once, in order. */
  lemma ResumeInvisible(points: seq<Point>, paths: nat -> Option<string>, worlds: seq<World>)
    requires Indexed(points) && worlds != []
    requires forall w :: w in worlds ==> Agrees(w, paths) && NeverStops(w)
    ensures var runs := Runs(points, map[], worlds);
      var (last, end) := runs[|runs| - 1];
      var single := Run(points, map[], Smooth(paths)).0;
      end == Complete ==>
        && last.results == single.results
        && last.recorded == single.recorded
        && (forall i: nat :: i in last.recorded <==> i < |points|)
        && AllSaved(runs) == Range(0, |points|)
  {
    assert Prefix(paths, 0) == map[];
    var j := ResumesReach(points, paths, 0, worlds);
    SmoothRun(points, paths);
    var single := Run(points, map[], Smooth(paths)).0;
    assert single == At(points, paths, 0, |points|);
  }

  /** What the replies say, in every run over recorded first points: on completion skipped and written
      points add up to all of them; on a failure `completed` is what this run recorded, the message is
      that of the first point that failed, and the results are those of the points before it. */
  lemma CountsAddUp(points: seq<Point>, paths: nat -> Option<string>, m: nat, w: World)
    requires Indexed(points) && Agrees(w, paths) && NeverStops(w) && m <= |points|
    ensures var r, j := ReplyOf(Run(points, Prefix(paths, m), w), m), FirstFailure(w, m, |points|);
      && (r.Done? ==> r.skipped == m && r.skipped + r.written == |points| == r.completed)
      && (r.Error? ==> r.completed == r.written == j - m && w.outcome(j) == Failed(r.message)
                       && r.results == Summaries(points, paths, j))
  {
    RunFromPrefix(points, paths, m, w);
  }

  // ----- A session: start, then resume while a point fails -----

  lemma LastIsLatest(sweeps: seq<SweepRow>, points: seq<Point>)
    ensures LatestIncomplete(sweeps + [SweepRow(points, false)]) == Some(|sweeps|)
  {
  }

  /** What a reply over `m` recorded points says, and what is recorded after it. */
  lemma ReplyFromPrefix(points: seq<Point>, paths: nat -> Option<string>, m: nat, w: World)
    requires Indexed(points) && Agrees(w, paths) && NeverStops(w) && m <= |points|
    ensures var run, j := Run(points, Prefix(paths, m), w), FirstFailure(w, m, |points|);
      var r := ReplyOf(run, m);
      && run.0.recorded == Prefix(paths, j) && run.0.saved == Range(m, j)
      && (run.1.Broken? <==> r.Error?) && (r.Error? <==> j < |points|) && (r.Done? <==> j == |points|)
      && (r.Done? ==> IsWhole(r, points, paths))
  {
    RunFromPrefix(points, paths, m, w);
    CountsAddUp(points, paths, m, w);
  }

  /** The reply of a completed sweep: the results of all points, skipped and written adding up. */
  ghost predicate IsWhole(r: Reply, points: seq<Point>, paths: nat -> Option<string>) {
    && r.Done?
    && r.results == Summaries(points, paths, |points|)
    && r.skipped + r.written == |points| == r.completed
  }

  /** Between two calls of a session: the sweep is the last one and not done, and its first `m` points
      are recorded, each by exactly one run. */
  ghost predicate InSession(sweeps: seq<SweepRow>, was: seq<SweepRow>, points: seq<Point>,
          recorded: map<nat, Option<string>>, paths: nat -> Option<string>, saved: seq<nat>, m: nat)
  {
    && m < |points|
    && sweeps == was + [SweepRow(points, false)]
    && recorded == Prefix(paths, m)
    && saved == Range(0, m)
  }

  /** The end of a session: the sweep is done, all points are recorded, each by exactly one run. */
  ghost predicate SessionDone(sweeps: seq<SweepRow>, was: seq<SweepRow>, points: seq<Point>,
          recorded: map<nat, Option<string>>, paths: nat -> Option<string>, saved: seq<nat>)
  {
    && sweeps == was + [SweepRow(points, true)]
    && recorded == Prefix(paths, |points|)
    && saved == Range(0, |points|)
  }

  ghost predicate NeverFails(w: World) {
    forall i: nat :: w.outcome(i).Saved?
  }

  /** Where one more run takes a session with `m` recorded points. */
  ghost predicate Advanced(r: Reply, sweeps: seq<SweepRow>, was: seq<SweepRow>, points: seq<Point>,
          recorded: map<nat, Option<string>>, paths: nat -> Option<string>, saved: seq<nat>, j: nat)
  {
    if r.Done? then IsWhole(r, points, paths) && SessionDone(sweeps, was, points, recorded, paths, saved)
    else r.Error? && InSession(sweeps, was, points, recorded, paths, saved, j)
  }

  lemma SessionStep(r: Reply, sweeps: seq<SweepRow>, was: seq<SweepRow>, points: seq<Point>,
          recorded: map<nat, Option<string>>, paths: nat -> Option<string>, saved: seq<nat>, m: nat, w: World)
    requires Indexed(points) && Agrees(w, paths) && NeverStops(w) && m <= |points| && saved == Range(0, m)
    requires var run := Run(points, Prefix(paths, m), w);
      r == ReplyOf(run, m) && recorded == run.0.recorded && sweeps == was + [SweepRow(points, !run.1.Broken?)]
    ensures var j := FirstFailure(w, m, |points|);
      && Advanced(r, sweeps, was, points, recorded, paths, saved + Range(m, j), j)
      && (r.Error? ==> !NeverFails(w))
  {
    ReplyFromPrefix(points, paths, m, w);
    var j := FirstFailure(w, m, |points|);
    RangeJoin(0, m, j);
    if j < |points| {
      assert w.outcome(j).Failed?;
    }
  }

  /** One more run of the session, over the points recorded so far. */
  method ResumeOnce(runner: SweepRunner, w: World, ghost was: seq<SweepRow>, ghost points: seq<Point>,
          ghost paths: nat -> Option<string>, ghost saved: seq<nat>, ghost m: nat)
    returns (r: Reply, ghost savedNow: seq<nat>, ghost j: nat)
    requires !runner.active && NoStrayRows(runner.store) && Indexed(points) && Agrees(w, paths) && NeverStops(w)
    requires InSession(runner.store.sweeps, was, points, runner.store.Recorded(|was|), paths, saved, m)
    modifies runner`active, runner.store
    ensures NoStrayRows(runner.store) && runner.active == r.Done?
    ensures Advanced(r, runner.store.sweeps, was, points, runner.store.Recorded(|was|), paths, savedNow, j)
    ensures r.Error? ==> !NeverFails(w)
    ensures forall k :: k != |was| ==> runner.store.Recorded(k) == old(runner.store.Recorded(k))
  {
    LastIsLatest(was, points);
    j := FirstFailure(w, m, |points|);
    savedNow := saved + Range(m, j);
    r := runner.Resume(false, w);
    SessionStep(r, runner.store.sweeps, was, points, runner.store.Recorded(|was|), paths, saved, m, w);
  }

  method StartOnce(runner: SweepRunner, base: Params, parameter: Option<string>, values: Option<seq<Value>>,
          several: seq<Axis>, w: World, ghost points: seq<Point>, ghost paths: nat -> Option<string>)
    returns (r: Reply, ghost saved: seq<nat>, ghost j: nat)
    requires !runner.active && NoStrayRows(runner.store) && Agrees(w, paths) && NeverStops(w)
    requires var axes := AxesOf(parameter, values, several);
      axes.Some? && points == PointsOf(axes.value, base, Combos(axes.value))
    modifies runner`active, runner.store
    ensures NoStrayRows(runner.store) && runner.active == r.Done?
    ensures var was := old(runner.store.sweeps);
      Advanced(r, runner.store.sweeps, was, points, runner.store.Recorded(|was|), paths, saved, j)
    ensures r.Error? ==> !NeverFails(w)
    ensures forall k :: k != |old(runner.store.sweeps)| ==> runner.store.Recorded(k) == old(runner.store.Recorded(k))
  {
    ghost var was := runner.store.sweeps;
    assert Prefix(paths, 0) == map[];
    j := FirstFailure(w, 0, |points|);
    saved := Range(0, 0) + Range(0, j);
    r := runner.Start(false, base, parameter, values, several, w);
    SessionStep(r, runner.store.sweeps, was, points, runner.store.Recorded(|was|), paths, Range(0, 0), 0, w);
  }

  ghost predicate AllFail(worlds: seq<World>, n: nat)
    requires n <= |worlds|
  {
    forall k :: 0 <= k < n ==> !NeverFails(worlds[k])
  }

  lemma AllFailNext(worlds: seq<World>, n: nat)
    requires n < |worlds| && AllFail(worlds, n) && !NeverFails(worlds[n])
    ensures AllFail(worlds, n + 1)
  {
  }

  /** Start a sweep and resume it as long as a point fails. Once a reply is done its results are those
      of one smooth run, every point has its row, and every point was recorded by exactly one of
      the runs; the session ends no later than with a run without failures. */
  method Session(runner: SweepRunner, base: Params, parameter: Option<string>, values: Option<seq<Value>>,
          several: seq<Axis>, worlds: seq<World>, ghost points: seq<Point>, ghost paths: nat -> Option<string>)
    returns (r: Reply, ghost saved: seq<nat>, ghost m: nat)
    requires !runner.active && NoStrayRows(runner.store) && worlds != []
    requires var axes := AxesOf(parameter, values, several);
      axes.Some? && points == PointsOf(axes.value, base, Combos(axes.value))
    requires forall w :: w in worlds ==> Agrees(w, paths) && NeverStops(w)
    modifies runner`active, runner.store
    ensures NoStrayRows(runner.store)
    ensures var was := old(runner.store.sweeps);
      Advanced(r, runner.store.sweeps, was, points, runner.store.Recorded(|was|), paths, saved, m)
    ensures r.Error? ==> AllFail(worlds, |worlds|)
    ensures forall k :: k != |old(runner.store.sweeps)| ==> runner.store.Recorded(k) == old(runner.store.Recorded(k))
  {
    ghost var was := runner.store.sweeps;
    PointsIndexed(AxesOf(parameter, values, several).value, base);
    assert worlds[0] in worlds;
    r, saved, m := StartOnce(runner, base, parameter, values, several, worlds[0], points, paths);
    var i := 1;
    if r.Error? {
      AllFailNext(worlds, 0);
    }
    while i < |worlds| && r.Error?
      invariant 1 <= i <= |worlds| && NoStrayRows(runner.store) && runner.active == r.Done?
      invariant Advanced(r, runner.store.sweeps, was, points, runner.store.Recorded(|was|), paths, saved, m)
      invariant r.Error? ==> AllFail(worlds, i)
      invariant forall k :: k != |was| ==> runner.store.Recorded(k) == old(runner.store.Recorded(k))
    {
      assert worlds[i] in worlds;
      r, saved, m := ResumeOnce(runner, worlds[i], was, points, paths, saved, m);
      if r.Error? {
        AllFailNext(worlds, i);
      }
      i := i + 1;
    }
  }

  /** The results of a completed session are those of a single run in which nothing failed. */
  lemma WholeIsSmooth(r: Reply, points: seq<Point>, paths: nat -> Option<string>)
    requires Indexed(points) && IsWhole(r, points, paths)
    ensures r.results == Run(points, map[], Smooth(paths)).0.results
  {
    SmoothRun(points, paths);
  }

  // ----- Stops -----

  /** Whatever was recorded before: a run without failures leaves no point out exactly when no
      stop is pending before a point it has yet to acquire. The sweep is marked done either way. */
  lemma {:induction false} CompleteExactly(points: seq<Point>, k: nat, skip: map<nat, Option<string>>, pr: Progress,
          w: World)
    requires k <= |points| && Indexed(points) && forall i: nat :: w.outcome(i).Saved?
    requires |pr.results| == k
    ensures var (last, end) := RunFrom(points, k, skip, pr, w);
      && !end.Broken?
      && (|last.results| == |points| <==> forall i: nat :: k <= i < |points| && i !in skip ==> !w.stop(i))
      && (end == Complete <==> |last.results| == |points|)
    decreases |points| - k
  {
    if k < |points| {
      var p := points[k];
      if p.index in skip {
        CompleteExactly(points, k + 1, skip, Skipping(pr, p, skip[p.index]), w);
      } else if !w.stop(p.index) {
        CompleteExactly(points, k + 1, skip, Saving(pr, p, w.outcome(p.index).path), w);
      }
    }
  }

  /** A stop before the second of two points: the sweep counts as done with one row, and nothing
      is left to resume. */
  lemma StoppedSweepIsLost(a: Point, b: Point, w: World)
    requires a.index == 0 && b.index == 1 && w.outcome(0).Saved? && !w.stop(0) && w.stop(1)
    ensures var run := Run([a, b], map[], w);
      && run.0.recorded.Keys == {0} && run.1 == Stopped
      && ReplyOf(run, 0).Done?
      && LatestIncomplete([SweepRow([a, b], !run.1.Broken?)]).None?
  {
    var points, pr := [a, b], Progress(map[], [], []);
    RunStep(points, 0, map[], pr, w);
    var after := Saving(pr, a, w.outcome(0).path);
    assert RunFrom(points, 1, map[], after, w) == (after, Stopped);
    assert [SweepRow(points, true)][..0] == [];
  }

  /** What a run meets: `calls(i)` is everything called on the instrument before point `i` is
      looked at. */
  function WorldOf(calls: nat -> seq<Call>, outcome: nat -> Outcome): World {
    World((i: nat) => Called(calls(i), |calls(i)|).stopRequested, outcome)
  }

  /** `before` is empty or ends with a return to idle, after which no call returns to idle. */
  ghost predicate SplitAtIdle(calls: seq<Call>, before: seq<Call>, since: seq<Call>) {
    && calls == before + since
    && (before == [] || before[|before| - 1] == SetTo(IDLE))
    && SetTo(IDLE) !in since
  }

  /** A run without failures leaves no point out exactly when no stop is requested between the last
      return to idle, which every acquisition makes, and the look at a point still to acquire; a stop
      requested while a point is being acquired is gone before the sweep looks. */
  lemma OnlyStopsBetweenPointsCount(points: seq<Point>, skip: map<nat, Option<string>>, calls: nat -> seq<Call>,
          before: nat -> seq<Call>, since: nat -> seq<Call>, outcome: nat -> Outcome)
    requires Indexed(points) && NeverFails(WorldOf(calls, outcome))
    requires forall i: nat :: SplitAtIdle(calls(i), before(i), since(i))
    ensures var (last, end) := Run(points, skip, WorldOf(calls, outcome));
      |last.results| == |points| <==>
        forall i: nat :: i < |points| && i !in skip ==> forall c :: c in since(i) ==> !c.Stop?
  {
    var w := WorldOf(calls, outcome);
    forall i: nat
      ensures w.stop(i) <==> exists c :: c in since(i) && c.Stop?
    {
      assert SplitAtIdle(calls(i), before(i), since(i));
      StopSurvivesExactly(before(i), since(i));
    }
    CompleteExactly(points, 0, skip, Progress(skip, [], []), w);
  }
}
