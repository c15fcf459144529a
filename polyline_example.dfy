/** Worked examples of TPolyLine's storage: geometric growth under
    SetNextPoint, and SetPolyLine(n) at the current capacity. */
module PolyLineExample {
  import opened PolyLines

  /** Three points appended to an empty polyline take indices 0, 1 and 2;
      the capacity grows from nothing to 1, then doubles to 2 and to 4, the
      points are kept in order, and the unused fourth slot is zeroed. */
  method AppendThree() returns (indices: seq<int>, capacities: seq<int>, xs: seq<real>)
    ensures indices == [0, 1, 2] && capacities == [1, 2, 4] && xs == [1.0, 3.0, 5.0, 0.0]
  {
    var p := new TPolyLine.Empty();
    var i0 := p.SetNextPoint(1.0, 2.0);
    var c0 := p.n;
    assert p.Xs() == [1.0];
    var i1 := p.SetNextPoint(3.0, 4.0);
    var c1 := p.n;
    assert Zeros(1) == [0.0];
    assert p.Xs() == [1.0, 3.0];
    var i2 := p.SetNextPoint(5.0, 6.0);
    var c2 := p.n;
    assert Zeros(2) == [0.0, 0.0];
    assert p.Xs() == [1.0, 3.0, 5.0, 0.0];
    indices, capacities := [i0, i1, i2], [c0, c1, c2];
    xs := p.xs[..4];
  }

  /** SetPolyLine(n) with n equal to the capacity is not a no-op: it goes
      through SetPoint(n-1, 0, 0), which resets the last point to (0, 0). */
  method ResizeToCapacity() returns (xs: seq<real>, ys: seq<real>, lastPoint: int)
    ensures xs == [1.0, 0.0] && ys == [3.0, 0.0] && lastPoint == 1
  {
    var x := new real[2];
    var y := new real[2];
    x[0], x[1] := 1.0, 2.0;
    y[0], y[1] := 3.0, 4.0;
    var p := new TPolyLine.FromPoints(2, x, y, "");
    p.SetPolyLine(2);
    xs, ys, lastPoint := p.xs[..2], p.ys[..2], p.lastPoint;
  }
}
