/** The slider of jQuery UI: values aligned to a grid, and two handles that keep their order. */
module Sliders {
  /** min, max and step; values are exact, and are not rounded to five decimals. */
  datatype Options = Options(min: real, max: real, step: real)

  predicate Proper(o: Options) {
    o.min <= o.max
  }

  function Step(o: Options): (s: real)
    ensures s > 0.0
  {
    if o.step > 0.0 then o.step else 1.0
  }

  /** The grid point that the k-th step reaches. */
  function Grid(o: Options, k: int): real {
    o.min + k as real * Step(o)
  }

  /** The number of whole steps from min to a value. */
  function Steps(o: Options, val: real): (k: int)
    ensures Grid(o, k) <= val < Grid(o, k + 1)
  {
    Floored(val - o.min, Step(o));
    ((val - o.min) / Step(o)).Floor
  }

  lemma Floored(x: real, s: real)
    requires s > 0.0
    ensures (x / s).Floor as real * s <= x < ((x / s).Floor + 1) as real * s
  {
    var q := x / s;
    var k := q.Floor;
    assert q * s == x;
    assert k as real <= q < (k + 1) as real;
    Scaled(k as real, q, s);
    StrictlyScaled(q, (k + 1) as real, s);
    assert k as real * s <= x;
    assert x < (k + 1) as real * s;
  }

  lemma Scaled(a: real, b: real, s: real)
    requires a <= b && s > 0.0
    ensures a * s <= b * s
  {
  }

  lemma StrictlyScaled(a: real, b: real, s: real)
    requires a < b && s > 0.0
    ensures a * s < b * s
  {
  }

  /** _trimAlignValue */
  function Align(o: Options, val: real): real {
    if val <= o.min then o.min
    else if val >= o.max then o.max
    else
      var valModStep := val - Grid(o, Steps(o, val));
      if valModStep * 2.0 >= Step(o) then val - valModStep + Step(o) else val - valModStep
  }

  /** The step divides the interval. */
  ghost predicate Divides(o: Options) {
    exists n: int :: Grid(o, n) == o.max
  }

  lemma GridStep(o: Options, k: int)
    ensures Grid(o, k + 1) == Grid(o, k) + Step(o)
  {
    assert (k + 1) as real * Step(o) == k as real * Step(o) + Step(o);
  }

  lemma GridOrder(o: Options, j: int, k: int)
    ensures j <= k <==> Grid(o, j) <= Grid(o, k)
  {
    var d := (k - j) as real;
    assert Grid(o, k) - Grid(o, j) == d * Step(o);
    if j <= k {
      assert d * Step(o) >= 0.0;
    } else {
      assert d <= -1.0;
      assert d * Step(o) < 0.0;
    }
  }

  /** Inside the interval the result is the nearer of the two grid points around the value, the upper one
      when both are as near. */
  lemma AlignIsGrid(o: Options, val: real) returns (k: int)
    requires o.min < val < o.max
    ensures Align(o, val) == Grid(o, k)
    ensures k == Steps(o, val) || k == Steps(o, val) + 1
    ensures -Step(o) / 2.0 < val - Grid(o, k) + Step(o) && val - Step(o) / 2.0 <= Grid(o, k) <= val + Step(o) / 2.0
    ensures k == Steps(o, val) + 1 <==> (val - Grid(o, Steps(o, val))) * 2.0 >= Step(o)
  {
    GridStep(o, Steps(o, val));
    k := if (val - Grid(o, Steps(o, val))) * 2.0 >= Step(o) then Steps(o, val) + 1 else Steps(o, val);
  }

  lemma StepsUnique(o: Options, val: real, k: int)
    requires Grid(o, k) <= val < Grid(o, k + 1)
    ensures Steps(o, val) == k
  {
    GridOrder(o, k + 1, Steps(o, val));
    GridOrder(o, Steps(o, val) + 1, k);
  }

  /** What is left of the interval behind its last whole step. */
  function Rest(o: Options): real {
    o.max - Grid(o, Steps(o, o.max))
  }

  /** The interval ends at most half a step behind a grid point. */
  predicate LittleLeft(o: Options) {
    2.0 * Rest(o) <= Step(o)
  }

  lemma DividesLeavesNothing(o: Options)
    requires Divides(o)
    ensures Rest(o) == 0.0 && LittleLeft(o)
  {
    var n: int :| Grid(o, n) == o.max;
    GridOrder(o, n + 1, n);
    StepsUnique(o, o.max, n);
  }

  lemma AlignInRange(o: Options, val: real)
    requires Proper(o) && LittleLeft(o)
    ensures o.min <= Align(o, val) <= o.max
  {
    if o.min < val < o.max {
      RestSuffices(o, val);
    }
  }

  lemma NotNegative(o: Options, val: real)
    requires o.min < val
    ensures Steps(o, val) >= 0
  {
    assert Grid(o, 0) == o.min by { assert 0 as real * Step(o) == 0.0; }
    GridOrder(o, Steps(o, val) + 1, 0);
  }

  /** A value in the interval moves by at most half a step, whatever the step; the result is on the grid if
      the step divides the interval. */
  lemma AlignNearest(o: Options, val: real)
    requires Proper(o)
    ensures Divides(o) ==> exists k: int :: Align(o, val) == Grid(o, k)
    ensures o.min <= val <= o.max ==> -Step(o) / 2.0 <= Align(o, val) - val <= Step(o) / 2.0
    ensures o.min < val < o.max ==> exists k: int :: Align(o, val) == Grid(o, k)
    ensures o.min < val < o.max ==> val < Align(o, val) + Step(o) / 2.0
  {
    if o.min < val < o.max {
      var k := AlignIsGrid(o, val);
    } else if val <= o.min {
      assert Grid(o, 0) == o.min by { assert 0 as real * Step(o) == 0.0; }
    }
  }

  /** Outside the interval the nearer end is taken, and values that are whole steps from min stay, where a step
      that is not positive counts as 1. */
  lemma WholeStepsStay(o: Options, k: int)
    requires Proper(o)
    ensures var val := if o.step > 0.0 then o.min + k as real * o.step else o.min + k as real;
      Align(o, val) == if val <= o.min then o.min else if val >= o.max then o.max else val
  {
    GridStep(o, k);
    StepsUnique(o, Grid(o, k), k);
    assert Grid(o, k) == if o.step > 0.0 then o.min + k as real * o.step else o.min + k as real;
  }

  lemma AlignMonotone(o: Options, a: real, b: real)
    requires Proper(o) && LittleLeft(o) && a <= b
    ensures Align(o, a) <= Align(o, b)
  {
    AlignInRange(o, a);
    AlignInRange(o, b);
    if o.min < a && b < o.max {
      var j := AlignIsGrid(o, a);
      var k := AlignIsGrid(o, b);
      GridOrder(o, Steps(o, b) + 1, Steps(o, a));
      GridOrder(o, j, k);
    }
  }

  lemma AlignIdempotent(o: Options, val: real)
    requires Proper(o) && LittleLeft(o)
    ensures Align(o, Align(o, val)) == Align(o, val)
  {
    AlignInRange(o, val);
    var v := Align(o, val);
    if o.min < val < o.max && o.min < v < o.max {
      var k := AlignIsGrid(o, val);
      var j := Steps(o, v);
      GridOrder(o, j, k);
      GridOrder(o, k + 1, j + 1);
      assert j == k by {
        GridOrder(o, j + 1, k);
      }
      var _ := AlignIsGrid(o, v);
    }
  }

  /** Whatever the step, no value is aligned past max just when at most half a step is left. */
  lemma InRangeExactly(o: Options)
    requires o.min < o.max
    ensures (forall val: real :: o.min <= Align(o, val) <= o.max) <==> LittleLeft(o)
  {
    if LittleLeft(o) {
      forall val: real ensures o.min <= Align(o, val) <= o.max {
        if o.min < val < o.max {
          RestSuffices(o, val);
        }
      }
    } else {
      var val := PastMax(o);
    }
  }

  /** If more is left, half a step behind the last whole one is aligned past max. */
  lemma PastMax(o: Options) returns (val: real)
    requires o.min < o.max && !LittleLeft(o)
    ensures o.min < val < o.max < Align(o, val)
  {
    var k := Steps(o, o.max);
    val := Grid(o, k) + Step(o) / 2.0;
    NotNegative(o, o.max);
    GridStep(o, k);
    GridOrder(o, 0, k);
    assert Grid(o, 0) == o.min by { assert 0 as real * Step(o) == 0.0; }
    StepsUnique(o, val, k);
  }

  lemma RestSuffices(o: Options, val: real)
    requires o.min < val < o.max && LittleLeft(o)
    ensures o.min <= Align(o, val) <= o.max
  {
    var j, k := Steps(o, val), Steps(o, o.max);
    assert Grid(o, 0) == o.min by { assert 0 as real * Step(o) == 0.0; }
    NotNegative(o, val);
    GridOrder(o, 0, j);
    GridStep(o, j);
    GridOrder(o, k + 1, j);
    if j < k {
      GridOrder(o, j + 1, k);
      var _ := AlignIsGrid(o, val);
    }
  }

  // ----- two handles -----

  /** One call of _slide: the handle, the value asked for, and whether the slide callback allows it. */
  datatype Slide = Slide(index: int, newVal: real, allowed: bool)

  /** On a range with two handles a handle stops at the other one. */
  function Stopped(o: Options, range: bool, values: seq<real>, slide: Slide): real
    requires 0 <= slide.index < |values|
  {
    if |values| == 2 && range && slide.index == 0 && slide.newVal > Align(o, values[1]) then Align(o, values[1])
    else if |values| == 2 && range && slide.index == 1 && slide.newVal < Align(o, values[0]) then Align(o, values[0])
    else slide.newVal
  }

  /** The values after a slide: one that changes nothing or is not allowed is dropped. */
  function Slid(o: Options, range: bool, values: seq<real>, slide: Slide): (r: seq<real>)
    requires 0 <= slide.index < |values|
    ensures |r| == |values|
  {
    var v := Stopped(o, range, values, slide);
    if v != Align(o, values[slide.index]) && slide.allowed then values[slide.index := Align(o, v)] else values
  }

  function Lower(a: real, b: real): real {
    if a < b then a else b
  }

  function Higher(a: real, b: real): real {
    if a < b then b else a
  }

  /** A slide that is not allowed changes nothing; an allowed one moves no other handle, and its own handle
      shows the aligned target: not past the other handle on a range, and anywhere else. */
  lemma SlideMoves(o: Options, range: bool, values: seq<real>, slide: Slide)
    requires Proper(o) && LittleLeft(o) && 0 <= slide.index < |values|
    ensures !slide.allowed ==> Slid(o, range, values, slide) == values
    ensures forall i :: 0 <= i < |values| && i != slide.index ==> Slid(o, range, values, slide)[i] == values[i]
    ensures slide.allowed ==>
      var shown := Align(o, Slid(o, range, values, slide)[slide.index]);
      if |values| == 2 && range && slide.index == 0 then shown == Align(o, Lower(slide.newVal, Align(o, values[1])))
      else if |values| == 2 && range then shown == Align(o, Higher(slide.newVal, Align(o, values[0])))
      else shown == Align(o, slide.newVal)
  {
    AlignIdempotent(o, Stopped(o, range, values, slide));
    AlignIdempotent(o, values[slide.index]);
  }

  /** What the slider shows of its two handles is in order. */
  predicate InOrder(o: Options, values: seq<real>) {
    |values| == 2 && Align(o, values[0]) <= Align(o, values[1])
  }

  lemma SlideKeepsOrder(o: Options, values: seq<real>, slide: Slide)
    requires Proper(o) && LittleLeft(o) && InOrder(o, values) && 0 <= slide.index < 2
    ensures InOrder(o, Slid(o, true, values, slide))
  {
    var v, other := Stopped(o, true, values, slide), Align(o, values[1 - slide.index]);
    AlignIdempotent(o, v);
    AlignIdempotent(o, values[1 - slide.index]);
    if slide.index == 0 {
      AlignMonotone(o, v, other);
    } else {
      AlignMonotone(o, other, v);
    }
  }

  function SlidAll(o: Options, range: bool, values: seq<real>, slides: seq<Slide>): (r: seq<real>)
    requires forall i :: 0 <= i < |slides| ==> 0 <= slides[i].index < |values|
    ensures |r| == |values|
    decreases |slides|
  {
    if slides == [] then values
    else Slid(o, range, SlidAll(o, range, values, slides[..|slides| - 1]), slides[|slides| - 1])
  }

  /** Every run of _slide keeps the handles in order. */
  lemma {:induction false} RunKeepsOrder(o: Options, values: seq<real>, slides: seq<Slide>)
    requires Proper(o) && LittleLeft(o) && InOrder(o, values)
    requires forall i :: 0 <= i < |slides| ==> 0 <= slides[i].index < 2
    ensures InOrder(o, SlidAll(o, true, values, slides))
    decreases |slides|
  {
    if slides != [] {
      RunKeepsOrder(o, values, slides[..|slides| - 1]);
      SlideKeepsOrder(o, SlidAll(o, true, values, slides[..|slides| - 1]), slides[|slides| - 1]);
    }
  }

  ghost predicate AlwaysKeepsOrder(o: Options) {
    forall values: seq<real>, slide: Slide ::
      InOrder(o, values) && 0 <= slide.index < 2 ==> InOrder(o, Slid(o, true, values, slide))
  }

  /** With any other step some slide breaks the order: the condition is exact. */
  lemma OrderKeptExactly(o: Options)
    requires Proper(o)
    ensures AlwaysKeepsOrder(o) <==> LittleLeft(o)
  {
    if LittleLeft(o) {
      forall values: seq<real>, slide: Slide | InOrder(o, values) && 0 <= slide.index < 2
        ensures InOrder(o, Slid(o, true, values, slide))
      {
        SlideKeepsOrder(o, values, slide);
      }
    } else {
      if o.min == o.max {
        NothingLeft(o);
      }
      var val := PastMax(o);
      var slide := Slide(1, Align(o, val) + 1.0, true);
      assert InOrder(o, [val, val]);
      assert Slid(o, true, [val, val], slide) == [val, o.max];
      assert !InOrder(o, [val, o.max]);
    }
  }

  /** An empty interval is no step long. */
  lemma NothingLeft(o: Options)
    requires o.min == o.max
    ensures LittleLeft(o)
  {
    assert Grid(o, 0) == o.min by { assert 0 as real * Step(o) == 0.0; }
    DividesLeavesNothing(o);
  }

  class Slider {
    const options: Options
    const range: bool
    var values: seq<real>

    constructor (options: Options, range: bool, values: seq<real>)
      ensures this.options == options && this.range == range && this.values == values
    {
      this.options, this.range, this.values := options, range, values;
    }

    /** values( index ): what the slider shows of a handle. */
    function Value(index: int): real
      requires 0 <= index < |values|
      reads this
    {
      Align(options, values[index])
    }

    method SetValue(index: int, newValue: real)
      requires 0 <= index < |values|
      modifies this
      ensures values == old(values)[index := Align(options, newValue)]
    {
      values := values[index := Align(options, newValue)];
    }

    /** _slide */
    method Move(slide: Slide)
      requires 0 <= slide.index < |values|
      modifies this
      ensures values == Slid(options, range, old(values), slide)
    {
      var v := slide.newVal;
      if |values| == 2 && range {
        var otherVal := Value(if slide.index != 0 then 0 else 1);
        if (slide.index == 0 && v > otherVal) || (slide.index == 1 && v < otherVal) {
          v := otherVal;
        }
      }
      if v != Value(slide.index) {
        if slide.allowed {
          SetValue(slide.index, v);
        }
      }
    }
  }
}
