/** A model of the point storage of ROOT's TPolyLine (graf/src/TPolyLine.cxx):
    two parallel coordinate arrays of capacity fN, grown geometrically by
    SetPoint, and the index of the last point in use. */
module PolyLines {

  function Max(a: int, b: int): int { if a < b then b else a }

  /** The capacity SetPoint reallocates to when point `index` does not fit
      a buffer of `capacity` points: TMath::Max(2*fN, n+1). It always holds
      the point, and at least doubles the old capacity. */
  function GrownCapacity(capacity: nat, index: nat): (r: nat)
    ensures index < r && 2 * capacity <= r
    ensures r == 2 * capacity || r == index + 1
  {
    Max(2 * capacity, index + 1)
  }

  /** What memset writes into the new tail of a grown buffer. */
  function Zeros(k: nat): (r: seq<real>)
    ensures |r| == k && forall i | 0 <= i < k :: r[i] == 0.0
  {
    seq(k, _ => 0.0)
  }

  /** The reallocation step of SetPoint for one coordinate array: a fresh
      array of `newN` values which, when the old array exists and holds
      points, starts with its `n` values and continues with zeros (memcpy
      then memset); otherwise it is left uninitialised. */
  method Reallocated(a: array?<real>, n: nat, newN: nat) returns (b: array<real>)
    requires n <= newN
    requires a != null ==> n <= a.Length
    ensures fresh(b) && b.Length == newN
    ensures a != null && n != 0 ==> b[..] == a[..n] + Zeros(newN - n)
  {
    b := new real[newN];
    if a != null && n != 0 {
      forall i | 0 <= i < n {
        b[i] := a[i];
      }
      forall i | n <= i < newN {
        b[i] := 0.0;
      }
      assert b[..] == a[..n] + Zeros(newN - n);
    }
  }

  /** The polyline's storage: fN, fX, fY, fLastPoint and fOption. */
  class TPolyLine {
    /** fN: the capacity of both coordinate arrays. */
    var n: int
    /** fX: the x coordinates, or null while no storage is allocated. */
    var xs: array?<real>
    /** fY: the y coordinates, or null while no storage is allocated. */
    var ys: array?<real>
    /** fLastPoint: the index of the last point in use, -1 when none is. */
    var lastPoint: int
    /** fOption: the drawing option. */
    var option: string

    /** Both arrays exist together, are distinct, and hold at least fN
        points; no storage means no capacity. After a truncation by
        SetPolyLine(n) the arrays may be longer than fN. */
    ghost predicate StorageValid()
      reads this
    {
      && 0 <= n && -1 <= lastPoint
      && (xs == null <==> ys == null)
      && (xs == null ==> n == 0)
      && (xs != null ==> xs != ys && n <= xs.Length && n <= ys.Length)
    }

    /** Moreover the last point in use lies within the capacity. */
    ghost predicate Valid()
      reads this
    {
      StorageValid() && lastPoint < n
    }

    /** The fN stored x coordinates. */
    ghost function Xs(): seq<real>
      reads this, xs
      requires StorageValid()
    {
      if xs == null then [] else xs[..n]
    }

    /** The fN stored y coordinates. */
    ghost function Ys(): seq<real>
      reads this, ys
      requires StorageValid()
    {
      if ys == null then [] else ys[..n]
    }

    /** The default constructor: no storage and no point. */
    constructor Empty()
      ensures Valid() && n == 0 && lastPoint == -1 && xs == null && ys == null && option == ""
    {
      n, xs, ys, lastPoint, option := 0, null, null, -1, "";
    }

    /** TPolyLine(n, option): storage for n points, none of them in use and
        none initialised; a non-positive n allocates nothing. */
    constructor WithSize(size: int, option: string)
      ensures Valid() && lastPoint == -1 && this.option == option
      ensures size <= 0 ==> n == 0 && xs == null && ys == null
      ensures 0 < size ==> n == size && fresh(xs) && fresh(ys)
    {
      this.option := option;
      lastPoint := -1;
      if size <= 0 {
        n, xs, ys := 0, null, null;
      } else {
        n := size;
        xs := new real[size];
        ys := new real[size];
      }
    }

    /** TPolyLine(n, x, y, option): storage for n points holding the first n
        points of x and y, all in use; when either array is missing the
        storage is allocated but left unset and no point is in use. */
    constructor FromPoints(size: int, x: array?<real>, y: array?<real>, option: string)
      requires x != null && y != null ==> size <= x.Length && size <= y.Length
      ensures Valid() && this.option == option
      ensures size <= 0 ==> n == 0 && lastPoint == -1 && xs == null && ys == null
      ensures 0 < size ==> n == size && fresh(xs) && fresh(ys)
      ensures 0 < size && x != null && y != null ==>
                lastPoint == size - 1 && Xs() == x[..size] && Ys() == y[..size]
      ensures 0 < size && (x == null || y == null) ==> lastPoint == -1
    {
      this.option := option;
      lastPoint := -1;
      if size <= 0 {
        n, xs, ys := 0, null, null;
      } else {
        var newX := new real[size];
        var newY := new real[size];
        if x != null && y != null {
          for i := 0 to size
            invariant newX[..i] == x[..i] && newY[..i] == y[..i]
          {
            newX[i] := x[i];
            newY[i] := y[i];
          }
          lastPoint := size - 1;
        }
        n, xs, ys := size, newX, newY;
      }
    }

    /** The copy constructor: a deep copy of `polyline`. */
    constructor CopyOf(polyline: TPolyLine)
      requires polyline.Valid()
      ensures Valid()
      ensures n == polyline.n && lastPoint == polyline.lastPoint && option == polyline.option
      ensures Xs() == polyline.Xs() && Ys() == polyline.Ys()
      ensures n == 0 ==> xs == null && ys == null
      ensures 0 < n ==> fresh(xs) && fresh(ys)
    {
      n, xs, ys, lastPoint, option := 0, null, null, -1, "";
      new;
      polyline.Copy(this);
    }

    /** Copy(obj): overwrites obj with a deep copy of this polyline, in
        freshly allocated arrays. */
    method Copy(obj: TPolyLine)
      requires Valid() && obj != this
      modifies obj
      ensures obj.Valid()
      ensures obj.n == n && obj.lastPoint == lastPoint && obj.option == option
      ensures obj.Xs() == Xs() && obj.Ys() == Ys()
      ensures n == 0 ==> obj.xs == null && obj.ys == null
      ensures 0 < n ==> fresh(obj.xs) && fresh(obj.ys)
    {
      if n > 0 {
        var newX := new real[n];
        var newY := new real[n];
        for i := 0 to n
          invariant newX[..i] == xs[..i] && newY[..i] == ys[..i]
        {
          newX[i] := xs[i];
          newY[i] := ys[i];
        }
        obj.xs, obj.ys := newX, newY;
      } else {
        obj.xs, obj.ys := null, null;
      }
      obj.n := n;
      obj.option := option;
      obj.lastPoint := lastPoint;
    }

    /** SetPoint(n, x, y): stores point `index`. A negative index changes
        nothing. An index beyond the capacity (or missing storage) first
        reallocates both arrays to GrownCapacity, keeping the old points and
        zero-filling the new tail when there were old points; the new arrays
        are otherwise uninitialised. The last point in use becomes the larger
        of the old one and `index`. */
    method SetPoint(index: int, x: real, y: real)
      requires StorageValid()
      modifies this, xs, ys
      ensures StorageValid() && option == old(option)
      ensures index < 0 ==>
                n == old(n) && lastPoint == old(lastPoint) && xs == old(xs) && ys == old(ys)
                && Xs() == old(Xs()) && Ys() == old(Ys())
      ensures 0 <= index ==> lastPoint == Max(old(lastPoint), index) && index < n
      ensures 0 <= index < old(n) ==>
                n == old(n) && xs == old(xs) && ys == old(ys)
                && Xs() == old(Xs())[index := x] && Ys() == old(Ys())[index := y]
      ensures 0 <= index && old(n) <= index ==>
                n == GrownCapacity(old(n), index) && fresh(xs) && fresh(ys)
                && Xs()[index] == x && Ys()[index] == y
      ensures 0 <= index && 0 < old(n) <= index ==>
                Xs() == (old(Xs()) + Zeros(n - old(n)))[index := x]
                && Ys() == (old(Ys()) + Zeros(n - old(n)))[index := y]
      ensures old(Valid()) || (0 <= index && old(lastPoint) <= index) ==> Valid()
    {
      if index < 0 {
        return;
      }
      if xs == null || ys == null || index >= n {
        Grow(index);
      }
      xs[index] := x;
      ys[index] := y;
      lastPoint := Max(lastPoint, index);
    }

    /** The reallocation step of SetPoint: both arrays replaced by fresh ones
        of GrownCapacity, holding the old points followed by zeros when
        there were old points. */
    method Grow(index: nat)
      requires StorageValid() && n <= index
      modifies this
      ensures StorageValid() && fresh(xs) && fresh(ys)
      ensures n == GrownCapacity(old(n), index) && lastPoint == old(lastPoint) && option == old(option)
      ensures 0 < old(n) ==> Xs() == old(Xs()) + Zeros(n - old(n)) && Ys() == old(Ys()) + Zeros(n - old(n))
    {
      var newN := Max(2 * n, index + 1);
      var saveX := Reallocated(xs, n, newN);
      var saveY := Reallocated(ys, n, newN);
      xs, ys, n := saveX, saveY, newN;
    }

    /** SetNextPoint(x, y): stores the point after the last one in use and
        returns its index, the new last point; the other points keep their
        values, and a full buffer is doubled with its new tail zeroed. */
    method SetNextPoint(x: real, y: real) returns (r: int)
      requires Valid()
      modifies this, xs, ys
      ensures Valid() && option == old(option)
      ensures r == old(lastPoint) + 1 && lastPoint == r
      ensures r < n && Xs()[r] == x && Ys()[r] == y
      ensures Xs()[..r] == old(Xs())[..r] && Ys()[..r] == old(Ys())[..r]
      ensures r < old(n) ==>
                n == old(n) && xs == old(xs) && ys == old(ys)
                && Xs() == old(Xs())[r := x] && Ys() == old(Ys())[r := y]
      ensures r == old(n) ==> n == Max(2 * old(n), 1) && fresh(xs) && fresh(ys)
      ensures r == old(n) == 0 ==> Xs() == [x] && Ys() == [y]
      ensures 0 < old(n) == r ==>
                Xs() == (old(Xs()) + Zeros(n - old(n)))[r := x]
                && Ys() == (old(Ys()) + Zeros(n - old(n)))[r := y]
    {
      lastPoint := lastPoint + 1;
      SetPoint(lastPoint, x, y);
      r := lastPoint;
    }

    /** SetPolyLine(n): a non-positive n drops the storage; an n below the
        capacity truncates to n points, all in use; any other n stores the
        point (0, 0) at index n-1 as SetPoint does, growing the storage if
        needed. */
    method SetPolyLine(size: int)
      requires Valid()
      modifies this, xs, ys
      ensures Valid() && option == old(option)
      ensures size <= 0 ==> n == 0 && lastPoint == -1 && xs == null && ys == null
      ensures 0 < size < old(n) ==>
                n == size && lastPoint == size - 1 && xs == old(xs) && ys == old(ys)
                && Xs() == old(Xs())[..size] && Ys() == old(Ys())[..size]
      ensures 0 < size == old(n) ==>
                n == size && lastPoint == size - 1
                && Xs() == old(Xs())[size - 1 := 0.0] && Ys() == old(Ys())[size - 1 := 0.0]
      ensures 0 < size && old(n) < size ==>
                n == GrownCapacity(old(n), size - 1) && lastPoint == size - 1
                && Xs()[size - 1] == 0.0 && Ys()[size - 1] == 0.0
      ensures 0 < old(n) < size ==>
                Xs() == old(Xs()) + Zeros(n - old(n)) && Ys() == old(Ys()) + Zeros(n - old(n))
    {
      if size <= 0 {
        n := 0;
        lastPoint := -1;
        xs, ys := null, null;
        return;
      }
      if size < n {
        n := size;
        lastPoint := size - 1;
      } else {
        SetPoint(size - 1, 0.0, 0.0);
      }
    }

    /** SetPolyLine(n, x, y, option): replaces the storage by exactly n fresh
        points, copying each coordinate array that is given, all of them in
        use; a non-positive n drops the storage and keeps the option. */
    method SetPolyLinePoints(size: int, x: array?<real>, y: array?<real>, option: string)
      requires Valid()
      requires x != null ==> size <= x.Length
      requires y != null ==> size <= y.Length
      modifies this
      ensures Valid()
      ensures size <= 0 ==>
                n == 0 && lastPoint == -1 && xs == null && ys == null && this.option == old(this.option)
      ensures 0 < size ==>
                n == size && lastPoint == size - 1 && this.option == option && fresh(xs) && fresh(ys)
      ensures 0 < size && x != null ==> Xs() == old(x[..size])
      ensures 0 < size && y != null ==> Ys() == old(y[..size])
    {
      if size <= 0 {
        n := 0;
        lastPoint := -1;
        xs, ys := null, null;
        return;
      }
      var newX := new real[size];
      var newY := new real[size];
      for i := 0 to size
        invariant x != null ==> newX[..i] == x[..i]
        invariant y != null ==> newY[..i] == y[..i]
      {
        if x != null {
          newX[i] := x[i];
        }
        if y != null {
          newY[i] := y[i];
        }
      }
      n, xs, ys := size, newX, newY;
      this.option := option;
      lastPoint := size - 1;
    }
  }
}
