/** The arc-length sampling schedule of `sample_path_uniform`. */
module Sampling {
  import opened Common

  /** A parsed SVG path as the sampler sees it: its arc length, the inverse arc-length
    * map (None where the library raises), and the point at a curve parameter. */
  datatype Path = Path(length: real, ilength: real -> Option<real>, point: real -> Point)

  /** `math.ceil`: the least integer not below `x`. */
  function Ceil(x: real): (c: int)
    ensures x <= c as real < x + 1.0
  {
    -((-x).Floor)
  }

  /** `n = max(1, ceil(L / step))`, the number of segments. */
  function Segments(len: real, step: real): (n: int)
    requires step != 0.0
    ensures n >= 1
    ensures n as real >= len / step
    ensures len / step > 0.0 ==> (n - 1) as real < len / step
    ensures len / step <= 1.0 ==> n == 1
  {
    var c := Ceil(len / step);
    if c > 1 then c else 1
  }

  /** `s_i = min(i * step, L)`. */
  function ArcParam(i: int, len: real, step: real): real {
    if len < i as real * step then len else i as real * step
  }

  /** The arc-length parameters at which the path is evaluated. */
  function Schedule(len: real, step: real): (r: Result<seq<real>>)
    ensures r.Err? <==> len > 0.0 && step == 0.0
  {
    if len <= 0.0 then Ok([])
    else if step == 0.0 then Err(ZeroStep)
    else Ok(seq(Segments(len, step) + 1, i => ArcParam(i, len, step)))
  }

  /** Below the last index the multiple `k * step` is still short of `L`. */
  lemma StepBeforeEnd(len: real, step: real, k: int)
    requires step > 0.0 && 0 <= k
    requires k as real < len / step
    ensures k as real * step < len
  {
    calc {
      k as real * step;
    < (len / step) * step;
      len;
    }
  }

  /** At the last index the multiple `n * step` reaches `L`. */
  lemma StepAtEnd(len: real, step: real, k: int)
    requires step > 0.0
    requires k as real >= len / step
    ensures k as real * step >= len
  {
    calc {
      k as real * step;
    >= (len / step) * step;
      len;
    }
  }

  /** Each parameter of a positive-step schedule. */
  lemma ArcParamAt(len: real, step: real, i: int)
    requires len > 0.0 && step > 0.0 && 0 <= i <= Segments(len, step)
    ensures 0.0 <= ArcParam(i, len, step) <= len
    ensures i < Segments(len, step) ==> ArcParam(i, len, step) == i as real * step
    ensures i == Segments(len, step) ==> ArcParam(i, len, step) == len
  {
    var n := Segments(len, step);
    assert 0.0 <= i as real * step;
    if i < n {
      StepBeforeEnd(len, step, i);
    } else {
      StepAtEnd(len, step, n);
    }
  }

  /** Parameters of a positive-step schedule never decrease. */
  lemma ArcParamMonotone(len: real, step: real, i: int, j: int)
    requires step > 0.0 && 0 <= i <= j
    ensures ArcParam(i, len, step) <= ArcParam(j, len, step)
  {
    assert i as real * step <= j as real * step;
  }

  /** The schedule: nothing for a path of no length; otherwise n + 1 >= 2 parameters
    * from 0. With a positive step they are nondecreasing, stay within [0, L], are the
    * exact multiples i * step except the last, and the last is exactly L. */
  lemma ScheduleShape(len: real, step: real)
    ensures len <= 0.0 ==> Schedule(len, step) == Ok([])
    ensures len > 0.0 && step != 0.0 ==>
      var ss := Schedule(len, step).value;
      |ss| == Segments(len, step) + 1 >= 2 && ss[0] == 0.0
    ensures len > 0.0 && step > 0.0 ==>
      var ss := Schedule(len, step).value;
      && (forall i :: 0 <= i < |ss| ==> 0.0 <= ss[i] <= len)
      && (forall i, j :: 0 <= i <= j < |ss| ==> ss[i] <= ss[j])
      && (forall i :: 0 <= i < |ss| - 1 ==> ss[i] == i as real * step)
      && ss[|ss| - 1] == len
  {
    if len > 0.0 && step != 0.0 {
      var ss := Schedule(len, step).value;
      assert ss[0] == ArcParam(0, len, step);
      if step > 0.0 {
        forall i | 0 <= i < |ss|
          ensures 0.0 <= ss[i] <= len
          ensures i < |ss| - 1 ==> ss[i] == i as real * step
          ensures i == |ss| - 1 ==> ss[i] == len
        {
          ArcParamAt(len, step, i);
        }
        forall i, j | 0 <= i <= j < |ss| ensures ss[i] <= ss[j] {
          ArcParamMonotone(len, step, i, j);
        }
      }
    }
  }

  /** A negative step (the command line accepts one) gives a single segment: the path
    * is evaluated at arc length 0 and at the negative arc length `step`. */
  lemma ScheduleNegativeStep(len: real, step: real)
    requires len > 0.0 && step < 0.0
    ensures Schedule(len, step) == Ok([0.0, step])
  {
    assert len / step < 0.0;
    var ss := Schedule(len, step).value;
    assert |ss| == 2 && ss[0] == 0.0 && ss[1] == step;
    assert ss == [0.0, step];
  }

  /** The curve parameter for sample `i` of `n`: the inverse arc length of `s`, or the
    * fraction `i / n` where the library raises. */
  function CurveParam(path: Path, s: real, i: int, n: int): real
    requires n > 0
  {
    match path.ilength(s)
    case Some(t) => t
    case None => i as real / n as real
  }

  /** The points of `sample_path_uniform`. */
  function Samples(path: Path, step: real): (r: Result<seq<Point>>)
  {
    var len := path.length;
    if len <= 0.0 then Ok([])
    else if step == 0.0 then Err(ZeroStep)
    else
      var n := Segments(len, step);
      Ok(seq(n + 1, i => path.point(CurveParam(path, ArcParam(i, len, step), i, n))))
  }

  /** The samples are the path evaluated once per scheduled parameter, in schedule order,
    * and fail exactly when the schedule does. */
  lemma SamplesFollowSchedule(path: Path, step: real)
    ensures Samples(path, step).Err? <==> Schedule(path.length, step).Err?
    ensures Samples(path, step).Ok? ==>
      var pts, ss := Samples(path, step).value, Schedule(path.length, step).value;
      && |pts| == |ss|
      && forall i :: 0 <= i < |pts| ==> pts[i] == path.point(CurveParam(path, ss[i], i, |ss| - 1))
  {
  }

  /** `sample_path_uniform`: evaluates the path at the scheduled arc lengths. */
  method SamplePathUniform(path: Path, step: real) returns (r: Result<seq<Point>>)
    ensures r == Samples(path, step)
    ensures r.Err? <==> path.length > 0.0 && step == 0.0
    ensures r.Ok? && path.length > 0.0 ==> |r.value| == Segments(path.length, step) + 1 >= 2
  {
    var len := path.length;
    if len <= 0.0 {
      return Ok([]);
    }
    if step == 0.0 {
      return Err(ZeroStep);
    }
    var n := Segments(len, step);
    var pts: seq<Point> := [];
    for i := 0 to n + 1
      invariant |pts| == i
      invariant forall k :: 0 <= k < i ==> pts[k] == path.point(CurveParam(path, ArcParam(k, len, step), k, n))
    {
      var s := ArcParam(i, len, step);
      var t := CurveParam(path, s, i, n);
      pts := pts + [path.point(t)];
    }
    assert pts == seq(n + 1, i => path.point(CurveParam(path, ArcParam(i, len, step), i, n)));
    r := Ok(pts);
  }
}
