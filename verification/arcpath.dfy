/**
 * The procedural guide path of the Arc component (helper `f` of the source):
 * SVG path data built from `M` (move-to), `L` (line-to) and `A` (elliptical
 * arc) commands, as described in section 8.3 of the SVG 1.1 specification.
 * The path is kept as a sequence of absolute commands with real coordinates
 * in the 100 x 100 user space of the component's default viewBox; the
 * string formatting of the numbers is not modelled.
 */
module ArcPath {

  datatype Point = Point(x: real, y: real)

  /**
   * An absolute path command. `ArcTo` carries the arc parameters in the
   * order SVG writes them: radii, x-axis rotation, large-arc flag, sweep
   * flag and end point.
   */
  datatype Command =
    | MoveTo(to: Point)
    | LineTo(to: Point)
    | ArcTo(rx: real, ry: real, rotation: real, largeArc: bool, sweep: bool, to: Point)

  /** The vertical centre of the 100 x 100 drawing area. */
  const Middle: real := 50.0

  /** The upper horizontal level of a path with offset `t`. */
  function Upper(t: real): real { Middle - t }

  /** The lower horizontal level of a path with offset `t`. */
  function Lower(t: real): real { Middle + t }

  /** The unit-radius, unrotated arc the source writes as `A 1 1 0 large sweep x y`. */
  function UnitArc(large: bool, sweep: bool, to: Point): Command {
    ArcTo(1.0, 1.0, 0.0, large, sweep, to)
  }

  /**
   * `f(flip, t)`. Without flip: a band that climbs the left edge to the upper
   * level, arcs across to the right, runs down to the lower level and arcs back,
   * ending on the upper level. With flip: the same levels swapped and both arc
   * flags inverted, ending back at the start point.
   */
  function ArcPath(flip: bool, t: real): (p: seq<Command>)
    ensures |p| == if flip then 6 else 7
    ensures p[0] == MoveTo(Point(0.0, Middle))
    ensures forall k :: 0 <= k < |p| ==> p[k].to.x == 0.0 || p[k].to.x == 100.0
    ensures forall k :: 0 <= k < |p| ==> p[k].to.y in {Upper(t), Middle, Lower(t)}
    ensures forall k :: 0 <= k < |p| && p[k].ArcTo? ==>
      p[k].rx == 1.0 && p[k].ry == 1.0 && p[k].rotation == 0.0 &&
      p[k].largeArc == flip && p[k].sweep == !flip
  {
    var i := Upper(t);
    var n := Lower(t);
    if flip then
      [ MoveTo(Point(0.0, 50.0)),
        LineTo(Point(0.0, n)),
        UnitArc(true, false, Point(100.0, n)),
        LineTo(Point(100.0, i)),
        UnitArc(true, false, Point(0.0, i)),
        LineTo(Point(0.0, 50.0)) ]
    else
      [ MoveTo(Point(0.0, 50.0)),
        LineTo(Point(0.0, i)),
        UnitArc(false, true, Point(100.0, i)),
        LineTo(Point(100.0, 50.0)),
        LineTo(Point(100.0, n)),
        UnitArc(false, true, Point(0.0, n)),
        LineTo(Point(0.0, i)) ]
  }

  /** The current point after the last command (SVG's "current point"). */
  function EndPoint(p: seq<Command>): Point
    requires |p| > 0
  {
    p[|p| - 1].to
  }

  /** The points the path visits: the end point of each command, in order. */
  function Vertices(p: seq<Command>): seq<Point> {
    seq(|p|, k requires 0 <= k < |p| => p[k].to)
  }

  /** The command letters of a path, as SVG writes them. */
  function Letters(p: seq<Command>): (l: string)
    ensures |l| == |p|
    ensures forall k :: 0 <= k < |p| ==> (l[k] == 'A' <==> p[k].ArcTo?)
  {
    seq(|p|, k requires 0 <= k < |p| => match p[k] case MoveTo(_) => 'M' case LineTo(_) => 'L' case ArcTo(_, _, _, _, _, _) => 'A')
  }

  /**
   * The non-flipped path is `M L A L L A L` through (0,50), (0,50-t),
   * (100,50-t), (100,50), (100,50+t), (0,50+t), (0,50-t); the flipped one is
   * `M L A L A L` through (0,50), (0,50+t), (100,50+t), (100,50-t), (0,50-t), (0,50).
   */
  lemma ArcPathShape(t: real)
    ensures Letters(ArcPath(false, t)) == "MLALLAL"
    ensures Vertices(ArcPath(false, t)) ==
      [Point(0.0, 50.0), Point(0.0, 50.0 - t), Point(100.0, 50.0 - t), Point(100.0, 50.0),
       Point(100.0, 50.0 + t), Point(0.0, 50.0 + t), Point(0.0, 50.0 - t)]
    ensures Letters(ArcPath(true, t)) == "MLALAL"
    ensures Vertices(ArcPath(true, t)) ==
      [Point(0.0, 50.0), Point(0.0, 50.0 + t), Point(100.0, 50.0 + t),
       Point(100.0, 50.0 - t), Point(0.0, 50.0 - t), Point(0.0, 50.0)]
  {
  }

  /** The path ends where its (single) subpath started. */
  predicate Closed(p: seq<Command>) {
    |p| > 0 && EndPoint(p) == p[0].to
  }

  /** The arc commands of a path, in order. */
  function Arcs(p: seq<Command>): (r: seq<Command>)
    ensures forall k :: 0 <= k < |r| ==> r[k].ArcTo?
    ensures |r| <= |p|
  {
    if |p| == 0 then []
    else (if p[0].ArcTo? then [p[0]] else []) + Arcs(p[1..])
  }

  /** The arcs of a path are exactly its arc commands: nothing else, and none dropped. */
  lemma {:induction false} ArcsMembers(p: seq<Command>)
    ensures forall c :: c in Arcs(p) <==> c in p && c.ArcTo?
  {
    if |p| > 0 {
      ArcsMembers(p[1..]);
      assert p == [p[0]] + p[1..];
    }
  }

  /**
   * A command with its end point's y mapped to 100 - y; the arc flags are kept.
   * On end points this is reflection in y = 50, but it is not the reflection of
   * the drawn arc, which would also reverse its sweep direction.
   */
  function SwapLevel(c: Command): Command {
    c.(to := Point(c.to.x, 100.0 - c.to.y))
  }

  /** Every command of the path with its end point's y mapped to 100 - y, arc flags kept. */
  function SwapLevels(p: seq<Command>): seq<Command> {
    seq(|p|, k requires 0 <= k < |p| => SwapLevel(p[k]))
  }

  /** The two levels are symmetric about the middle: they always add up to 100. */
  lemma LevelsSumTo100(t: real)
    ensures Upper(t) + Lower(t) == 100.0
    ensures Upper(t) <= Middle <= Lower(t) <==> t >= 0.0
  {
  }

  /** The non-flipped path starts at (0, 50) and ends on the upper level (0, 50 - t). */
  lemma UnflippedEnds(t: real)
    ensures ArcPath(false, t)[0].to == Point(0.0, 50.0)
    ensures EndPoint(ArcPath(false, t)) == Point(0.0, 50.0 - t)
  {
  }

  /** The flipped path always returns to its start point (0, 50). */
  lemma FlippedEnds(t: real)
    ensures ArcPath(true, t)[0].to == Point(0.0, 50.0)
    ensures EndPoint(ArcPath(true, t)) == Point(0.0, 50.0)
  {
  }

  /** The path is closed exactly when it is flipped or the offset is zero. */
  lemma ClosedIff(flip: bool, t: real)
    ensures Closed(ArcPath(flip, t)) <==> flip || t == 0.0
  {
  }

  /**
   * Both paths hold exactly two arcs, and for every offset the flags of the
   * k-th arc of the flipped path are the negation of those of the non-flipped one.
   */
  lemma {:induction false} FlipInvertsArcFlags(t: real, t': real)
    ensures |Arcs(ArcPath(true, t))| == 2 && |Arcs(ArcPath(false, t'))| == 2
    ensures forall k :: 0 <= k < 2 ==>
      Arcs(ArcPath(true, t))[k].largeArc == !Arcs(ArcPath(false, t'))[k].largeArc &&
      Arcs(ArcPath(true, t))[k].sweep == !Arcs(ArcPath(false, t'))[k].sweep
  {
    FlippedArcs(t);
    UnflippedArcs(t');
  }

  /** The flipped path's arcs are its third and fifth commands. */
  lemma FlippedArcs(t: real)
    ensures Arcs(ArcPath(true, t)) == [ArcPath(true, t)[2], ArcPath(true, t)[4]]
  {
    var pf := ArcPath(true, t);
    var a4 := [pf[0]] + [pf[1]] + [pf[2]] + [pf[3]];
    assert pf == a4 + [pf[4]] + [pf[5]];
    assert Arcs(a4) == [pf[2]] by {
      ArcsAppend([pf[0]] + [pf[1]] + [pf[2]], [pf[3]]);
      ArcsAppend([pf[0]] + [pf[1]], [pf[2]]);
      ArcsAppend([pf[0]], [pf[1]]);
    }
    ArcsAppend(a4 + [pf[4]], [pf[5]]);
    ArcsAppend(a4, [pf[4]]);
  }

  /** The non-flipped path's arcs are its third and sixth commands. */
  lemma UnflippedArcs(t: real)
    ensures Arcs(ArcPath(false, t)) == [ArcPath(false, t)[2], ArcPath(false, t)[5]]
  {
    var pn := ArcPath(false, t);
    var a4 := [pn[0]] + [pn[1]] + [pn[2]] + [pn[3]];
    assert pn == a4 + [pn[4]] + [pn[5]] + [pn[6]];
    assert Arcs(a4) == [pn[2]] by {
      ArcsAppend([pn[0]] + [pn[1]] + [pn[2]], [pn[3]]);
      ArcsAppend([pn[0]] + [pn[1]], [pn[2]]);
      ArcsAppend([pn[0]], [pn[1]]);
    }
    ArcsAppend(a4 + [pn[4]] + [pn[5]], [pn[6]]);
    ArcsAppend(a4 + [pn[4]], [pn[5]]);
    ArcsAppend(a4, [pn[4]]);
  }

  /** Collecting arcs distributes over concatenation of paths. */
  lemma {:induction false} ArcsAppend(a: seq<Command>, b: seq<Command>)
    ensures Arcs(a + b) == Arcs(a) + Arcs(b)
  {
    if |a| == 0 {
      assert a + b == b;
    } else {
      var head := if a[0].ArcTo? then [a[0]] else [];
      assert Arcs(a + b) == head + Arcs(a[1..] + b) by {
        assert (a + b)[0] == a[0] && (a + b)[1..] == a[1..] + b;
      }
      ArcsAppend(a[1..], b);
    }
  }

  /**
   * Mapping every end point's y to 100 - y, with the arc flags kept, swaps the
   * upper and lower levels: it gives the path built from the opposite offset.
   */
  lemma SwapLevelsNegatesOffset(flip: bool, t: real)
    ensures SwapLevels(ArcPath(flip, t)) == ArcPath(flip, -t)
  {
    var p, q := ArcPath(flip, t), ArcPath(flip, -t);
    forall k | 0 <= k < |p| ensures SwapLevel(p[k]) == q[k] {
      SwapLevelValues(t);
    }
  }

  /** `y` to `100 - y` maps each level of offset `t` to the other level of offset `-t`. */
  lemma SwapLevelValues(t: real)
    ensures 100.0 - Upper(t) == Upper(-t) && 100.0 - Lower(t) == Lower(-t) && 100.0 - Middle == Middle
  {
  }

  /** With a zero offset (circle, or the graphic fallback) every command's end point lies on y = 50. */
  lemma ZeroOffsetFlat(flip: bool)
    ensures forall k :: 0 <= k < |ArcPath(flip, 0.0)| ==> ArcPath(flip, 0.0)[k].to.y == 50.0
  {
  }
}
