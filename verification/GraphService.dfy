/** The graph generator: paints the two axes into a width x height pixel
    buffer whose centre pixel (width/2, height/2) is the origin, then walks the
    pixel columns left to right and collects the line segments that trace the
    parabola. Drawing the collected path and encoding the image are not part of
    this model; a pixel is either painted (true) or left transparent (false).
 */
module Services {
  import opened Library

  datatype Point = Point(x: int, y: int)

  datatype Segment = Segment(start: Point, finish: Point)

  /** The (int) cast: truncation toward zero. */
  function Trunc(r: real): (n: int)
    ensures r >= 0.0 ==> 0 <= n && n as real <= r < n as real + 1.0
    ensures r < 0.0 ==> n <= 0 && n as real - 1.0 < r <= n as real
  {
    if r >= 0.0 then r.Floor else -((-r).Floor)
  }

  /** The curve's pixel row for column i, before shifting by height/2: the
      value at x = i - width/2, cut to an integer no farther from zero. */
  function Row(e: QuadraticEquation, width: int, i: int): (r: int)
    ensures var v := GetValue(e, (i - width / 2) as real);
      Abs(v - r as real) < 1.0 && Abs(r as real) <= Abs(v)
  {
    Trunc(GetValue(e, (i - width / 2) as real))
  }

  /** Row i is above the bottom edge of the canvas. */
  predicate Visible(e: QuadraticEquation, height: int, width: int, i: int) {
    Row(e, width, i) + height / 2 < height
  }

  /** The segments column i contributes: the segment from (i, row i) to
      (i+1, row i+1), both shifted down by height/2, exactly when row i is
      above the bottom edge. The right end's row is not checked, nor is the
      top edge. */
  function ColumnSegments(e: QuadraticEquation, height: int, width: int, i: int): (r: seq<Segment>)
    ensures r ==
      if Visible(e, height, width, i)
      then [Segment(Point(i, Row(e, width, i) + height / 2), Point(i + 1, Row(e, width, i + 1) + height / 2))]
      else []
  {
    var x := i - width / 2;
    var y := Trunc(GetValue(e, x as real));
    var y2 := Trunc(GetValue(e, (x + 1) as real));
    if y + height / 2 < height then
      [Segment(Point(x + width / 2, y + height / 2), Point(x + 1 + width / 2, y2 + height / 2))]
    else
      []
  }

  /** The path collected after visiting columns 0 .. n-1: at most one segment
      per column, each starting at a visited column. */
  function PathUpTo(e: QuadraticEquation, height: int, width: int, n: nat): (r: seq<Segment>)
    ensures |r| <= n
    ensures forall k :: 0 <= k < |r| ==> 0 <= r[k].start.x < n
  {
    if n == 0 then [] else PathUpTo(e, height, width, n - 1) + ColumnSegments(e, height, width, n - 1)
  }

  /** Every segment of the path belongs to a visited column, spans one column
      to the right and joins the curve's rows at both ends. */
  lemma {:induction false} PathSegments(e: QuadraticEquation, height: int, width: int, n: nat)
    ensures var path := PathUpTo(e, height, width, n);
      |path| <= n &&
      forall k :: 0 <= k < |path| ==>
        0 <= path[k].start.x < n && Visible(e, height, width, path[k].start.x) &&
        path[k] == Segment(Point(path[k].start.x, Row(e, width, path[k].start.x) + height / 2),
                           Point(path[k].start.x + 1, Row(e, width, path[k].start.x + 1) + height / 2))
  {
    if n > 0 {
      PathSegments(e, height, width, n - 1);
    }
  }

  /** Segments appear in strictly increasing column order. */
  lemma {:induction false} PathOrdered(e: QuadraticEquation, height: int, width: int, n: nat)
    ensures var path := PathUpTo(e, height, width, n);
      forall j, k :: 0 <= j < k < |path| ==> path[j].start.x < path[k].start.x
  {
    if n > 0 {
      PathOrdered(e, height, width, n - 1);
      PathSegments(e, height, width, n - 1);
    }
  }

  predicate HasSegmentAt(path: seq<Segment>, i: int) {
    exists k :: 0 <= k < |path| && path[k].start.x == i
  }

  lemma HasSegmentAtAppend(prev: seq<Segment>, extra: seq<Segment>, i: int)
    ensures HasSegmentAt(prev + extra, i) <==> HasSegmentAt(prev, i) || HasSegmentAt(extra, i)
  {
    var path := prev + extra;
    if HasSegmentAt(prev, i) {
      var k :| 0 <= k < |prev| && prev[k].start.x == i;
      assert path[k].start.x == i;
    }
    if HasSegmentAt(path, i) {
      var k :| 0 <= k < |path| && path[k].start.x == i;
      if k >= |prev| {
        assert extra[k - |prev|].start.x == i;
      }
    }
    if HasSegmentAt(extra, i) {
      var k :| 0 <= k < |extra| && extra[k].start.x == i;
      assert path[|prev| + k].start.x == i;
    }
  }

  /** The segments column n-1 adds name column n-1 and only that column. */
  lemma LastColumn(e: QuadraticEquation, height: int, width: int, n: nat, i: int)
    requires 0 <= i < n
    ensures PathUpTo(e, height, width, n) == PathUpTo(e, height, width, n - 1) + ColumnSegments(e, height, width, n - 1)
    ensures HasSegmentAt(ColumnSegments(e, height, width, n - 1), i) <==> i == n - 1 && Visible(e, height, width, i)
  {
    var col := ColumnSegments(e, height, width, n - 1);
    if col != [] {
      assert col[0].start.x == n - 1;
    }
  }

  /** A visited column has a segment exactly when its row is above the bottom
      edge of the canvas. */
  lemma {:induction false} PathCoverage(e: QuadraticEquation, height: int, width: int, n: nat, i: int)
    requires 0 <= i < n
    ensures HasSegmentAt(PathUpTo(e, height, width, n), i) <==> Visible(e, height, width, i)
  {
    var prev := PathUpTo(e, height, width, n - 1);
    var col := ColumnSegments(e, height, width, n - 1);
    LastColumn(e, height, width, n, i);
    HasSegmentAtAppend(prev, col, i);
    if i < n - 1 {
      PathCoverage(e, height, width, n - 1, i);
    } else {
      PathSegments(e, height, width, n - 1);
      assert !HasSegmentAt(prev, i);
    }
  }

  /** On a 100 x 100 canvas the curve y = x^2 passes through the origin pixel:
      column 50 contributes the segment from (50, 50) to (51, 51). */
  lemma OriginSegmentExample()
    ensures ColumnSegments(FromStandardForm(1.0, 0.0, 0.0).value, 100, 100, 50) ==
      [Segment(Point(50, 50), Point(51, 51))]
  {
    var e: QuadraticEquation := Coefficients(1.0, 0.0, 0.0);
    assert FromStandardForm(1.0, 0.0, 0.0).value == e;
    assert (50 - 100 / 2) as real == 0.0 && (51 - 100 / 2) as real == 1.0;
    assert GetValue(e, 0.0) == 0.0 && GetValue(e, 1.0) == 1.0;
    assert Row(e, 100, 50) == 0 && Row(e, 100, 51) == 1;
  }

  /** Nothing guards the top edge: for y = -x^2 - 1000 column 50 still
      contributes a segment, starting 950 pixels above the canvas. */
  lemma OffCanvasSegmentExample()
    ensures ColumnSegments(FromStandardForm(-1.0, 0.0, -1000.0).value, 100, 100, 50) ==
      [Segment(Point(50, -950), Point(51, -951))]
  {
    var e: QuadraticEquation := Coefficients(-1.0, 0.0, -1000.0);
    assert FromStandardForm(-1.0, 0.0, -1000.0).value == e;
    assert (50 - 100 / 2) as real == 0.0 && (51 - 100 / 2) as real == 1.0;
    assert GetValue(e, 0.0) == -1000.0 && GetValue(e, 1.0) == -1001.0;
    assert Row(e, 100, 50) == -1000 && Row(e, 100, 51) == -1001;
  }

  /** Paints the vertical axis at column width/2 and the horizontal axis at
      row height/2; every other pixel keeps its colour. */
  method PaintAxes(image: array2<bool>, height: int, width: int)
    requires 0 < width && 0 < height
    requires image.Length0 == width && image.Length1 == height
    modifies image
    ensures forall i :: 0 <= i < height ==> image[width / 2, i]
    ensures forall i :: 0 <= i < width ==> image[i, height / 2]
    ensures forall x, y :: 0 <= x < width && 0 <= y < height && x != width / 2 && y != height / 2 ==>
      image[x, y] == old(image[x, y])
  {
    for i := 0 to height
      invariant forall k :: 0 <= k < i ==> image[width / 2, k]
      invariant forall x, y :: 0 <= x < width && 0 <= y < height && (x != width / 2 || y >= i) ==>
        image[x, y] == old(image[x, y])
    {
      image[width / 2, i] := true;
    }
    for i := 0 to width
      invariant forall k :: 0 <= k < height ==> image[width / 2, k]
      invariant forall k :: 0 <= k < i ==> image[k, height / 2]
      invariant forall x, y :: 0 <= x < width && 0 <= y < height && x != width / 2 && (y != height / 2 || x >= i) ==>
        image[x, y] == old(image[x, y])
    {
      image[i, height / 2] := true;
    }
  }

  /** The column loop: visits columns 0 .. width-1 in order and appends each
      column's segment when its row is above the bottom edge. */
  method CollectSegments(e: QuadraticEquation, height: int, width: nat) returns (path: seq<Segment>)
    requires 0 < height
    ensures path == PathUpTo(e, height, width, width)
  {
    path := [];
    for i := 0 to width
      invariant path == PathUpTo(e, height, width, i)
    {
      var x := i - width / 2;
      var y := Trunc(GetValue(e, x as real));
      var y2 := Trunc(GetValue(e, (x + 1) as real));
      if y + height / 2 < height {
        path := path + [Segment(Point(x + width / 2, y + height / 2), Point(x + 1 + width / 2, y2 + height / 2))];
      }
    }
  }

  /** The whole generator: a fresh transparent image with both axes painted,
      and the path of the curve, or the invalid-equation error when a == 0
      (raised before any segment is collected). */
  method GenerateGraph(a: real, b: real, c: real, height: int, width: int)
    returns (image: array2<bool>, path: Result<seq<Segment>>)
    requires 0 < width && 0 < height
    ensures fresh(image) && image.Length0 == width && image.Length1 == height
    ensures forall x, y :: 0 <= x < width && 0 <= y < height ==>
      (image[x, y] <==> x == width / 2 || y == height / 2)
    ensures path.Failure? <==> a == 0.0
    ensures path.Failure? ==> path.error == InvalidQuadraticEquation("a is 0")
    ensures path.Success? ==> path.value == PathUpTo(FromStandardForm(a, b, c).value, height, width, width)
  {
    image := new bool[width, height]((x, y) => false);
    PaintAxes(image, height, width);
    var equation := FromStandardForm(a, b, c);
    if equation.Failure? {
      return image, Failure(equation.error);
    }
    var segments := CollectSegments(equation.value, height, width);
    path := Success(segments);
  }
}
