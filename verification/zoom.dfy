/**
  The zoom step cycler of browser/utils.py: a sorted list of integer zoom
  percentages and a position in it. Construction snaps a requested value to
  the nearest step (ties go to the lower step); `up` and `down` move one step
  and stop at the ends; `reset` goes back to the step chosen at construction.

  The source mutates `self.current_index`; here the cycler is a value and
  every operation returns the new cycler together with the value the source
  returns.
*/
module Zoom {
  import opened Wrappers
  import opened Sorting

  datatype StepCycler = StepCycler(steps: seq<int>, index: nat, initialIndex: nat)

  /** The result of `up`, `down`, `reset` and `current`: the new state and the step returned. */
  datatype Stepped = Stepped(cycler: StepCycler, value: int)

  /**
    Steps are sorted and both positions lie inside the list. The source
    builds a cycler over an empty list too; its position is then 0.
  */
  predicate Valid(c: StepCycler) {
    && Sorted(c.steps)
    && if |c.steps| == 0 then c.index == 0 && c.initialIndex == 0
       else c.index < |c.steps| && c.initialIndex < |c.steps|
  }

  function Dist(a: int, b: int): nat {
    if a >= b then a - b else b - a
  }

  /**
    `r` indexes a step nearest to `value`, and among the steps equally near
    it holds the lowest one.
  */
  ghost predicate Closest(steps: seq<int>, value: int, r: nat) {
    && r < |steps|
    && (forall i :: 0 <= i < |steps| ==> Dist(steps[r], value) <= Dist(steps[i], value))
    && (forall i :: 0 <= i < |steps| && Dist(steps[i], value) == Dist(steps[r], value) ==> steps[r] <= steps[i])
  }

  /**
    The index `_find_closest_index` picks: a closest step, and among equal
    steps the copy on the side of `value` (the last copy of a step below
    it, the first copy of a step at or above it), as `bisect_left` finds it.
  */
  ghost predicate Snapped(steps: seq<int>, value: int, r: nat) {
    && Closest(steps, value, r)
    && (steps[r] < value ==> r + 1 == |steps| || value <= steps[r + 1])
    && (value <= steps[r] ==> r == 0 || steps[r - 1] < value)
  }

  /** Python's `bisect.bisect_left`: the first position whose element is not below `x`. */
  method BisectLeft(a: seq<int>, x: int) returns (pos: nat)
    requires Sorted(a)
    ensures pos <= |a|
    ensures forall i :: 0 <= i < pos ==> a[i] < x
    ensures forall i :: pos <= i < |a| ==> x <= a[i]
  {
    var lo, hi := 0, |a|;
    while lo < hi
      invariant 0 <= lo <= hi <= |a|
      invariant forall i :: 0 <= i < lo ==> a[i] < x
      invariant forall i :: hi <= i < |a| ==> x <= a[i]
      decreases hi - lo
    {
      var mid := (lo + hi) / 2;
      if a[mid] < x {
        lo := mid + 1;
      } else {
        hi := mid;
      }
    }
    pos := lo;
  }

  /**
    `_find_closest_index`: the nearest step, the lower one on a tie. A value
    at or below the first step gives 0, one above the last step gives the
    last index, and a value equal to a step gives the first index holding it.
  */
  method FindClosestIndex(steps: seq<int>, value: int) returns (r: nat)
    requires Sorted(steps)
    ensures |steps| == 0 ==> r == 0
    ensures |steps| > 0 ==> Snapped(steps, value, r)
    ensures |steps| > 0 && value <= steps[0] ==> r == 0
    ensures |steps| > 0 && value > steps[|steps| - 1] ==> r == |steps| - 1
    ensures forall i :: 0 <= i < |steps| && steps[i] == value ==>
              steps[r] == value && forall k :: 0 <= k < r ==> steps[k] < value
  {
    var pos := BisectLeft(steps, value);
    if pos == 0 {
      return 0;
    }
    if pos == |steps| {
      return |steps| - 1;
    }
    var before := steps[pos - 1];
    var after := steps[pos];
    if after - value < value - before {
      r := pos;
    } else {
      r := pos - 1;
    }
  }

  /**
    `StepCycler.__init__`: sorts the steps, snaps the optional initial value
    to its closest step (index 0 without one) and remembers that index.
  */
  method New(steps: seq<int>, initialValue: Option<int>) returns (c: StepCycler)
    ensures Valid(c)
    ensures multiset(c.steps) == multiset(steps)
    ensures c.initialIndex == c.index
    ensures initialValue.None? ==> c.index == 0
    ensures initialValue.Some? && |steps| > 0 ==> Snapped(c.steps, initialValue.value, c.index)
  {
    var sorted := Sort(steps);
    var index: nat := 0;
    if initialValue.Some? {
      index := FindClosestIndex(sorted, initialValue.value);
    }
    c := StepCycler(sorted, index, index);
  }

  /**
    `current()`: the step at the current position, which is no lower than
    any step before it and no higher than any step after it.
  */
  function Current(c: StepCycler): (r: int)
    requires Valid(c) && |c.steps| > 0
    ensures r in c.steps
    ensures forall i :: 0 <= i < c.index ==> c.steps[i] <= r
    ensures forall i :: c.index < i < |c.steps| ==> r <= c.steps[i]
  {
    c.steps[c.index]
  }

  /** `up()`: one step higher, staying on the last step once there. */
  function Up(c: StepCycler): (r: Stepped)
    requires Valid(c) && |c.steps| > 0
    ensures Valid(r.cycler) && r.cycler.steps == c.steps && r.cycler.initialIndex == c.initialIndex
    ensures r.value == Current(r.cycler) && r.value >= Current(c)
    ensures c.index + 1 < |c.steps| ==> r.cycler.index == c.index + 1
    ensures c.index + 1 == |c.steps| ==> r.cycler == c
  {
    var i := if c.index + 1 < |c.steps| - 1 then c.index + 1 else |c.steps| - 1;
    var next := c.(index := i);
    Stepped(next, c.steps[i])
  }

  /** `down()`: one step lower, staying on the first step once there. */
  function Down(c: StepCycler): (r: Stepped)
    requires Valid(c) && |c.steps| > 0
    ensures Valid(r.cycler) && r.cycler.steps == c.steps && r.cycler.initialIndex == c.initialIndex
    ensures r.value == Current(r.cycler) && r.value <= Current(c)
    ensures c.index > 0 ==> r.cycler.index == c.index - 1
    ensures c.index == 0 ==> r.cycler == c
  {
    var i := if c.index - 1 > 0 then c.index - 1 else 0;
    var next := c.(index := i);
    Stepped(next, c.steps[i])
  }

  /** `reset()`: back to the index chosen at construction. */
  function Reset(c: StepCycler): (r: Stepped)
    requires Valid(c) && |c.steps| > 0
    ensures Valid(r.cycler) && r.cycler.steps == c.steps && r.cycler.initialIndex == c.initialIndex
    ensures r.cycler.index == c.initialIndex
    ensures r.value == Current(r.cycler)
  {
    var next := c.(index := c.initialIndex);
    Stepped(next, c.steps[c.initialIndex])
  }

  /** One call on the cycler, as a caller of the source class would make it. */
  datatype Call = CallUp | CallDown | CallReset | CallCurrent

  function Apply(c: StepCycler, call: Call): (r: Stepped)
    requires Valid(c) && |c.steps| > 0
    ensures Valid(r.cycler) && r.cycler.steps == c.steps && r.cycler.initialIndex == c.initialIndex
    ensures r.value == Current(r.cycler)
    ensures call == CallCurrent ==> r.cycler == c
  {
    match call
    case CallUp => Up(c)
    case CallDown => Down(c)
    case CallReset => Reset(c)
    case CallCurrent => Stepped(c, Current(c))
  }

  /**
    Any sequence of calls keeps the cycler valid, never changes the steps
    and never changes the remembered construction index.
  */
  function Run(c: StepCycler, calls: seq<Call>): (r: StepCycler)
    requires Valid(c) && |c.steps| > 0
    ensures Valid(r) && r.steps == c.steps && r.initialIndex == c.initialIndex
    decreases |calls|
  {
    if |calls| == 0 then c else Run(Apply(c, calls[0]).cycler, calls[1..])
  }

  /** `reset()` after any history of calls returns the step chosen at construction. */
  lemma ResetAfterAnyCalls(c: StepCycler, calls: seq<Call>)
    requires Valid(c) && |c.steps| > 0 && c.index == c.initialIndex
    ensures Reset(Run(c, calls)).value == Current(c)
    ensures Reset(Run(c, calls)).cycler == c
  {
  }

  /** `down()` undoes an `up()` that moved. */
  lemma DownUndoesUp(c: StepCycler)
    requires Valid(c) && c.index + 1 < |c.steps|
    ensures Down(Up(c).cycler).cycler == c
  {
  }

  /** `up()` undoes a `down()` that moved. */
  lemma UpUndoesDown(c: StepCycler)
    requires Valid(c) && |c.steps| > 0 && c.index > 0
    ensures Up(Down(c).cycler).cycler == c
  {
  }

  /** Two positions that both satisfy `Closest` hold the same step. */
  lemma ClosestStepIsUnique(steps: seq<int>, value: int, r1: nat, r2: nat)
    requires Closest(steps, value, r1) && Closest(steps, value, r2)
    ensures steps[r1] == steps[r2]
  {
  }

  /** An example step list of zoom percentages. */
  const ZoomSteps: seq<int> := [25, 33, 50, 67, 75, 80, 90, 100, 110, 125, 150, 175, 200, 250, 300, 400, 500]

  /** In the example step list, asking for 77 lands on index 4, the step 75: it is nearer than 80. */
  lemma SnapExample(r: nat)
    requires Closest(ZoomSteps, 77, r)
    ensures r == 4 && ZoomSteps[r] == 75
  {
    assert Closest(ZoomSteps, 77, 4);
    ClosestStepIsUnique(ZoomSteps, 77, r, 4);
  }

  /** From 75 in the example step list, `up()` gives 80 and `down()` gives 67. */
  lemma StepsAroundSnap(c: StepCycler)
    requires c.steps == ZoomSteps && c.index == 4 && Valid(c)
    ensures Up(c).value == 80 && Down(c).value == 67
  {
    assert Up(c).value == ZoomSteps[5];
    assert Down(c).value == ZoomSteps[3];
  }

  /** On sorted steps `Snapped` names one index: the choice is fully determined, repeated steps included. */
  lemma SnappedIsUnique(steps: seq<int>, value: int, r1: nat, r2: nat)
    requires Sorted(steps) && Snapped(steps, value, r1) && Snapped(steps, value, r2)
    ensures r1 == r2
  {
    ClosestStepIsUnique(steps, value, r1, r2);
    SnappedSide(steps, value, r1);
    SnappedSide(steps, value, r2);
  }

  /**
    A snapped index below `value` has only steps at or above `value` after
    it; one at or above `value` has only steps below `value` before it.
  */
  lemma SnappedSide(steps: seq<int>, value: int, r: nat)
    requires Sorted(steps) && Snapped(steps, value, r)
    ensures steps[r] < value ==> forall j :: r < j < |steps| ==> value <= steps[j]
    ensures value <= steps[r] ==> forall j :: 0 <= j < r ==> steps[j] < value
  {
    if steps[r] < value && r + 1 < |steps| {
      assert forall j :: r < j < |steps| ==> steps[r + 1] <= steps[j];
    }
    if value <= steps[r] && r > 0 {
      assert forall j :: 0 <= j < r ==> steps[j] <= steps[r - 1];
    }
  }

  /** With the repeated step of [10, 10, 20], asking for 11 picks the second 10, so `up()` gives 20. */
  lemma RepeatedStepExample(c: StepCycler)
    requires c.steps == [10, 10, 20] && Valid(c) && Snapped(c.steps, 11, c.index)
    ensures c.index == 1 && Up(c).value == 20
  {
    assert Snapped(c.steps, 11, 1);
    SnappedIsUnique(c.steps, 11, c.index, 1);
  }
}
