/** `extract_letter_polylines`: from the path elements of one letter to its Y-up
  * polylines. */
module Extract {
  import opened Common
  import opened Affine
  import opened Transform
  import opened Sampling
  import opened Polyline

  /** The y coordinates of a point list, in order. */
  function Ys(pts: seq<Point>): (ys: seq<real>)
    ensures |ys| == |pts|
  {
    seq(|pts|, i requires 0 <= i < |pts| => pts[i].y)
  }

  /** `min` of a non-empty list. */
  function MinOf(s: seq<real>): (m: real)
    requires s != []
    ensures m in s
    ensures forall i :: 0 <= i < |s| ==> m <= s[i]
  {
    if |s| == 1 then s[0]
    else
      var rest := MinOf(s[1..]);
      if rest < s[0] then rest else s[0]
  }

  /** `max` of a non-empty list. */
  function MaxOf(s: seq<real>): (m: real)
    requires s != []
    ensures m in s
    ensures forall i :: 0 <= i < |s| ==> s[i] <= m
  {
    if |s| == 1 then s[0]
    else
      var rest := MaxOf(s[1..]);
      if rest > s[0] then rest else s[0]
  }

  /** Mirrors each y inside [lo, hi]: `(x, hi - (y - lo))`. */
  function FlipPoly(poly: seq<Point>, lo: real, hi: real): (r: seq<Point>)
    ensures |r| == |poly|
  {
    seq(|poly|, j requires 0 <= j < |poly| => Point(poly[j].x, hi - (poly[j].y - lo)))
  }

  function FlipAll(polys: seq<seq<Point>>, lo: real, hi: real): (r: seq<seq<Point>>)
    ensures |r| == |polys|
  {
    seq(|polys|, i requires 0 <= i < |polys| => FlipPoly(polys[i], lo, hi))
  }

  /** The bottom and top of the glyph: min and max of every y of every polyline. */
  function Bottom(polys: seq<seq<Point>>): real
    requires Concat(polys) != []
  {
    MinOf(Ys(Concat(polys)))
  }

  function Top(polys: seq<seq<Point>>): real
    requires Concat(polys) != []
  {
    MaxOf(Ys(Concat(polys)))
  }

  /** The Y flip of `extract_letter_polylines`, SVG Y-down to plotter Y-up within the
    * glyph's own vertical extent. */
  function FlipGlyph(polys: seq<seq<Point>>): (r: seq<seq<Point>>)
    requires Concat(polys) != []
    ensures |r| == |polys|
    ensures forall i :: 0 <= i < |r| ==> |r[i]| == |polys[i]|
  {
    FlipAll(polys, Bottom(polys), Top(polys))
  }

  lemma {:induction false} InConcat(polys: seq<seq<Point>>, i: int, j: int)
    requires 0 <= i < |polys| && 0 <= j < |polys[i]|
    ensures polys[i][j] in Concat(polys)
  {
    if i > 0 {
      InConcat(polys[1..], i - 1, j);
    }
  }

  lemma {:induction false} ConcatFlip(polys: seq<seq<Point>>, lo: real, hi: real)
    ensures Concat(FlipAll(polys, lo, hi)) == FlipPoly(Concat(polys), lo, hi)
  {
    if polys != [] {
      assert FlipAll(polys, lo, hi)[1..] == FlipAll(polys[1..], lo, hi);
      ConcatFlip(polys[1..], lo, hi);
    }
  }

  /** The flip keeps the number of polylines, each one's length and point order, and
    * every x; each y lands in [bottom, top], and bottom and top trade places. */
  lemma FlipGlyphShape(polys: seq<seq<Point>>)
    requires Concat(polys) != []
    ensures var r, lo, hi := FlipGlyph(polys), Bottom(polys), Top(polys);
      && |r| == |polys|
      && (forall i :: 0 <= i < |r| ==> |r[i]| == |polys[i]|)
      && (forall i, j :: 0 <= i < |r| && 0 <= j < |r[i]| ==>
            && r[i][j].x == polys[i][j].x
            && r[i][j].y - lo == hi - polys[i][j].y
            && lo <= r[i][j].y <= hi
            && (polys[i][j].y == lo ==> r[i][j].y == hi)
            && (polys[i][j].y == hi ==> r[i][j].y == lo))
  {
    var r, ys := FlipGlyph(polys), Ys(Concat(polys));
    forall i, j | 0 <= i < |r| && 0 <= j < |r[i]|
      ensures MinOf(ys) <= polys[i][j].y <= MaxOf(ys)
    {
      InConcat(polys, i, j);
      var k :| 0 <= k < |Concat(polys)| && Concat(polys)[k] == polys[i][j];
      assert ys[k] == polys[i][j].y;
    }
  }

  /** The flipped glyph has the same vertical extent as the original. */
  lemma FlipKeepsExtent(polys: seq<seq<Point>>)
    requires Concat(polys) != []
    ensures Concat(FlipGlyph(polys)) != []
    ensures Bottom(FlipGlyph(polys)) == Bottom(polys)
    ensures Top(FlipGlyph(polys)) == Top(polys)
  {
    var lo, hi := Bottom(polys), Top(polys);
    var ys := Ys(Concat(polys));
    ConcatFlip(polys, lo, hi);
    var fys := Ys(Concat(FlipGlyph(polys)));
    assert |fys| == |ys|;
    forall k | 0 <= k < |fys| ensures fys[k] == hi - (ys[k] - lo) { }
    var kmin :| 0 <= kmin < |ys| && ys[kmin] == lo;
    var kmax :| 0 <= kmax < |ys| && ys[kmax] == hi;
    assert fys[kmax] == lo && fys[kmin] == hi;
    var fmin := MinOf(fys);
    var fmax := MaxOf(fys);
    assert fmin <= lo && lo <= fmin;
    assert hi <= fmax && fmax <= hi;
  }

  /** Flipping twice restores the glyph. */
  lemma FlipTwice(polys: seq<seq<Point>>)
    requires Concat(polys) != []
    ensures Concat(FlipGlyph(polys)) != []
    ensures FlipGlyph(FlipGlyph(polys)) == polys
  {
    FlipKeepsExtent(polys);
    var r2 := FlipGlyph(FlipGlyph(polys));
    assert |r2| == |polys|;
    forall i | 0 <= i < |polys| ensures r2[i] == polys[i] {
      assert |r2[i]| == |polys[i]|;
      forall j | 0 <= j < |polys[i]| ensures r2[i][j] == polys[i][j] { }
    }
  }

  /** One matched `<path>` element: the `transform` attributes of the element and of each
    * ancestor up to the root (the element first), and its parsed path data. */
  datatype PathNode = PathNode(ancestry: seq<seq<Token>>, path: Path)

  /** `[apply(T, x, y) for (x, y) in pts]`. */
  function MapApply(t: Mat3, pts: seq<Point>): (r: seq<Point>)
    ensures |r| == |pts|
  {
    seq(|pts|, i requires 0 <= i < |pts| => Apply(t, pts[i]))
  }

  /** The polylines one path element contributes. */
  function NodePolylines(nd: PathNode, step: real, gap: real, trig: Trig): (r: Result<seq<seq<Point>>>)
  {
    match WorldSpec(nd.ancestry, trig)
    case Err(e) => Err(e)
    case Ok(t) =>
      match Samples(nd.path, step)
      case Err(e) => Err(e)
      case Ok(pts) => Ok(KeepLong(Runs(MapApply(t, pts), gap)))
  }

  /** The polylines of all path elements in document order, before the flip; the first
    * element that fails decides the error. */
  function Gathered(nodes: seq<PathNode>, step: real, gap: real, trig: Trig): (r: Result<seq<seq<Point>>>)
    ensures r.Ok? ==> forall k :: 0 <= k < |r.value| ==> |r.value[k]| >= 2
  {
    if nodes == [] then Ok([])
    else
      match Gathered(nodes[..|nodes| - 1], step, gap, trig)
      case Err(e) => Err(e)
      case Ok(acc) =>
        match NodePolylines(nodes[|nodes| - 1], step, gap, trig)
        case Err(e) => Err(e)
        case Ok(ps) => Ok(acc + ps)
  }

  /** `extract_letter_polylines` as a specification. */
  function Extracted(nodes: seq<PathNode>, step: real, gap: real, trig: Trig): Result<seq<seq<Point>>> {
    match Gathered(nodes, step, gap, trig)
    case Err(e) => Err(e)
    case Ok(ps) => if ps == [] then Ok([]) else Ok(FlipGlyph(ps))
  }

  lemma {:induction false} GatheredErrPersists(nodes: seq<PathNode>, k: int, step: real, gap: real, trig: Trig)
    requires 0 <= k <= |nodes|
    requires Gathered(nodes[..k], step, gap, trig).Err?
    ensures Gathered(nodes, step, gap, trig) == Gathered(nodes[..k], step, gap, trig)
    decreases |nodes| - k
  {
    if k == |nodes| {
      assert nodes[..k] == nodes;
    } else {
      assert nodes[..k + 1][..k] == nodes[..k];
      GatheredErrPersists(nodes, k + 1, step, gap, trig);
    }
  }

  /** `extract_letter_polylines` for the path elements found under the letter's id:
    * transform, sample, split each, then flip the whole glyph. */
  method ExtractLetterPolylines(nodes: seq<PathNode>, step: real, gap: real, trig: Trig)
    returns (r: Result<seq<seq<Point>>>)
    ensures r == Extracted(nodes, step, gap, trig)
    ensures r.Ok? ==> forall k :: 0 <= k < |r.value| ==> |r.value[k]| >= 2
  {
    var polylines: seq<seq<Point>> := [];
    for k := 0 to |nodes|
      invariant Gathered(nodes[..k], step, gap, trig) == Ok(polylines)
    {
      assert nodes[..k + 1][..k] == nodes[..k];
      var nd := nodes[k];
      var t := WorldTransform(nd.ancestry, trig);
      if t.Err? {
        GatheredErrPersists(nodes, k + 1, step, gap, trig);
        return Err(t.error);
      }
      var pts := SamplePathUniform(nd.path, step);
      if pts.Err? {
        GatheredErrPersists(nodes, k + 1, step, gap, trig);
        return Err(pts.error);
      }
      var mapped := MapApply(t.value, pts.value);
      var split := SplitOnGaps(mapped, gap);
      polylines := polylines + split;
    }
    assert nodes[..|nodes|] == nodes;
    if polylines == [] {
      return Ok([]);
    }
    r := Ok(FlipGlyph(polylines));
  }
}
