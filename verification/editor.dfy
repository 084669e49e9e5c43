/**
 * The control-point editing session of the Bezier curve visualiser: an
 * ordered list of point objects, an optional point being dragged, and the
 * four pointer handlers (click, mouse-down, context menu, mouse-move) that
 * change them.
 */
module Editor {

  datatype Option<T> = None | Some(value: T)

  /** A point's colour tag: absent until the first hover pass, then black or red. */
  datatype Color = Unset | Black | Red

  /** The cursor shape the hover pass chooses for the canvas. */
  datatype Cursor = Pointer | Default

  /** Side of the square hit-box whose top-left corner is the point. */
  const HitBoxSide: int := 20

  /** The value of one point at one instant. */
  datatype Pt = Pt(x: int, y: int, color: Color)

  /** A control point; the drag moves the very object held in the list. */
  class Point {
    var x: int
    var y: int
    var color: Color

    /** The object literal `{x, y}` built by a click: no colour yet. */
    constructor (x: int, y: int)
      ensures this.x == x && this.y == y && color == Unset
    {
      this.x := x;
      this.y := y;
      color := Unset;
    }
  }

  /** The values held by a list of point objects, in list order. */
  function Snapshot(ps: seq<Point>): seq<Pt>
    reads ps
  {
    seq(|ps|, i reads ps requires 0 <= i < |ps| => Pt(ps[i].x, ps[i].y, ps[i].color))
  }

  /** No object occurs twice in the list. */
  ghost predicate Distinct(ps: seq<Point>)
  {
    forall i, j :: 0 <= i < j < |ps| ==> ps[i] != ps[j]
  }

  /** The strict hit-test: the pointer lies inside the open 20 by 20 square at (px, py). */
  predicate Hit(ex: int, ey: int, px: int, py: int)
  {
    ex > px && ex < px + HitBoxSide && ey > py && ey < py + HitBoxSide
  }

  /** The colour one hover pass gives a point at (px, py). */
  function HoverColor(ex: int, ey: int, px: int, py: int): (c: Color)
    ensures c == Red <==> Hit(ex, ey, px, py)
    ensures c != Unset
  {
    if Hit(ex, ey, px, py) then Red else Black
  }

  /** `find(point => point.color === 'red')`, as the index it finds. */
  function FirstRed(v: seq<Pt>): (r: Option<nat>)
    ensures r.Some? ==> r.value < |v| && v[r.value].color == Red
    ensures r.Some? ==> forall j :: 0 <= j < r.value ==> v[j].color != Red
    ensures r.None? <==> forall j :: 0 <= j < |v| ==> v[j].color != Red
  {
    if v == [] then None
    else if v[0].color == Red then Some(0)
    else match FirstRed(v[1..])
      case None => None
      case Some(k) => Some(k + 1)
  }

  /** `filter(p => p !== q)`: the list without every occurrence of the object q. */
  function Without(ps: seq<Point>, q: Point?): (r: seq<Point>)
    ensures |r| <= |ps|
  {
    if ps == [] then []
    else (if ps[0] == q then [] else [ps[0]]) + Without(ps[1..], q)
  }

  /** The filter keeps exactly the elements other than q. */
  lemma {:induction false} WithoutMembers(ps: seq<Point>, q: Point?, p: Point)
    ensures p in Without(ps, q) <==> p in ps && p != q
  {
    if ps != [] {
      WithoutMembers(ps[1..], q, p);
      assert p in ps <==> p == ps[0] || p in ps[1..];
    }
  }

  lemma {:induction false} WithoutAbsent(ps: seq<Point>, q: Point?)
    requires q !in ps
    ensures Without(ps, q) == ps
  {
    if ps != [] {
      WithoutAbsent(ps[1..], q);
    }
  }

  lemma {:induction false} WithoutConcat(a: seq<Point>, b: seq<Point>, q: Point?)
    ensures Without(a + b, q) == Without(a, q) + Without(b, q)
  {
    if a == [] {
      assert a + b == b;
    } else {
      assert (a + b)[1..] == a[1..] + b;
      WithoutConcat(a[1..], b, q);
    }
  }

  /** Filtering out an object that occurs once, between front and back, leaves front + back. */
  lemma WithoutSlot(front: seq<Point>, q: Point, back: seq<Point>)
    requires q !in front && q !in back
    ensures Without(front + ([q] + back), q) == front + back
  {
    var tail := [q] + back;
    assert Without(tail, q) == back by {
      assert tail[1..] == back;
      WithoutAbsent(back, q);
    }
    assert Without(front, q) == front by {
      WithoutAbsent(front, q);
    }
    WithoutConcat(front, tail, q);
  }

  lemma DistinctRemove(ps: seq<Point>, k: int)
    requires Distinct(ps) && 0 <= k < |ps|
    ensures Distinct(ps[..k] + ps[k + 1..])
  {
  }

  /** In a list without repetitions, filtering out the element at k removes exactly that slot. */
  lemma WithoutDistinct(ps: seq<Point>, k: int)
    requires Distinct(ps) && 0 <= k < |ps|
    ensures Without(ps, ps[k]) == ps[..k] + ps[k + 1..]
    ensures |Without(ps, ps[k])| == |ps| - 1
    ensures Distinct(Without(ps, ps[k]))
  {
    assert ps[k] !in ps[..k] by {
      forall p | p in ps[..k] ensures p != ps[k] {
        var i :| 0 <= i < k && ps[..k][i] == p;
        assert ps[i] == p;
      }
    }
    assert ps[k] !in ps[k + 1..] by {
      var back := ps[k + 1..];
      forall i | 0 <= i < |back| ensures back[i] != ps[k] {
        assert back[i] == ps[k + 1 + i];
      }
    }
    assert ps == ps[..k] + ([ps[k]] + ps[k + 1..]);
    WithoutSlot(ps[..k], ps[k], ps[k + 1..]);
    DistinctRemove(ps, k);
  }

  /** The editing session: the ordered point list and the point being dragged. */
  class Session {
    var points: seq<Point>
    var activePoint: Point?

    /** The dragged point, when there is one, is an element of the list. */
    ghost predicate Valid()
      reads this
    {
      activePoint != null ==> activePoint in points
    }

    /** The values of the listed points, in list order. */
    ghost function View(): seq<Pt>
      reads this, points
    {
      Snapshot(points)
    }

    /** The session starts with no points and nothing dragged. */
    constructor ()
      ensures points == [] && activePoint == null
      ensures Valid() && Distinct(points)
    {
      points := [];
      activePoint := null;
    }

    /** `addPoint`: appends p at the end of the list. */
    method AddPoint(p: Point)
      modifies this
      ensures points == old(points) + [p]
      ensures activePoint == old(activePoint)
      ensures old(Valid()) ==> Valid()
      ensures Distinct(points) <==> Distinct(old(points)) && p !in old(points)
    {
      ghost var before := points;
      points := points + [p];
      assert forall i :: 0 <= i < |before| ==> points[i] == before[i];
      if p in before {
        var i :| 0 <= i < |before| && before[i] == p;
        assert points[i] == points[|before|];
      }
    }

    /** `onclick`: drops the dragged point, or appends a fresh point at (ex, ey). */
    method OnClick(ex: int, ey: int)
      requires Valid()
      modifies this
      ensures Valid() && activePoint == null
      ensures old(activePoint) != null ==> points == old(points) && View() == old(View())
      ensures old(activePoint) == null ==>
        |points| == |old(points)| + 1 && points[..|old(points)|] == old(points) &&
        fresh(points[|old(points)|]) && View() == old(View()) + [Pt(ex, ey, Unset)]
      ensures Distinct(old(points)) ==> Distinct(points)
    {
      if activePoint != null {
        activePoint := null;
        return;
      }
      var p := new Point(ex, ey);
      AddPoint(p);
      assert points[..|old(points)|] == old(points);
      assert View() == old(View()) + [Pt(ex, ey, Unset)] by {
        forall i | 0 <= i < |old(points)|
          ensures View()[i] == old(View())[i]
        {
          assert points[i] == old(points)[i];
        }
      }
    }

    /** `onmousedown`: picks up the first red point in list order, if any. */
    method OnMouseDown()
      requires Valid()
      modifies this
      ensures Valid() && points == old(points) && View() == old(View())
      ensures FirstRed(View()).Some? ==> activePoint == points[FirstRed(View()).value]
      ensures FirstRed(View()).None? ==> activePoint == old(activePoint)
    {
      var found := FirstRed(Snapshot(points));
      match found
      case None =>
      case Some(k) =>
        activePoint := points[k];
    }

    /**
     * `oncontextmenu`: filters the dragged point out of the list and clears
     * the drag. A point that is only hovered is not removed.
     */
    method OnContextMenu()
      requires Valid()
      modifies this
      ensures Valid() && activePoint == null
      ensures points == Without(old(points), old(activePoint))
      ensures View() == old(Snapshot(Without(points, activePoint)))
      ensures old(activePoint) == null ==> points == old(points)
      ensures forall k :: 0 <= k < |old(points)| && old(points)[k] == old(activePoint) && Distinct(old(points)) ==>
        points == old(points)[..k] + old(points)[k + 1..]
      ensures Distinct(old(points)) ==> Distinct(points)
    {
      ghost var before := points;
      if activePoint == null {
        WithoutAbsent(points, activePoint);
      } else if Distinct(points) {
        var k :| 0 <= k < |points| && points[k] == activePoint;
        WithoutDistinct(points, k);
        forall k' | 0 <= k' < |points| && points[k'] == activePoint
          ensures k' == k
        {
        }
      }
      points := Without(points, activePoint);
      activePoint := null;
    }

    /**
     * `onmousemove`: moves the dragged point to (ex, ey); with nothing dragged,
     * recolours every point by the hit-test and chooses the cursor.
     * The cursor is None when the handler leaves it as it was.
     */
    method OnMouseMove(ex: int, ey: int) returns (cursor: Option<Cursor>)
      requires Valid()
      modifies points
      ensures Valid() && points == old(points) && activePoint == old(activePoint)
      ensures |View()| == |old(View())|
      ensures activePoint != null ==> cursor == None
      ensures activePoint != null ==> forall j :: 0 <= j < |points| ==>
        View()[j] == if points[j] == activePoint then Pt(ex, ey, old(View())[j].color) else old(View())[j]
      ensures activePoint == null ==> forall j :: 0 <= j < |points| ==>
        View()[j] == Pt(old(View())[j].x, old(View())[j].y, HoverColor(ex, ey, old(View())[j].x, old(View())[j].y))
      ensures activePoint == null ==> cursor == Some(if FirstRed(View()).Some? then Pointer else Default)
      ensures activePoint == null ==>
        (cursor == Some(Pointer) <==> exists j :: 0 <= j < |points| && Hit(ex, ey, points[j].x, points[j].y))
    {
      if activePoint != null {
        activePoint.x := ex;
        activePoint.y := ey;
        return None;
      }
      var i := 0;
      while i < |points|
        invariant 0 <= i <= |points|
        invariant forall j :: 0 <= j < |points| ==> points[j].x == old(points[j].x) && points[j].y == old(points[j].y)
        invariant forall j :: 0 <= j < i ==> points[j].color == HoverColor(ex, ey, points[j].x, points[j].y)
      {
        var p := points[i];
        if Hit(ex, ey, p.x, p.y) {
          p.color := Red;
        } else {
          p.color := Black;
        }
        i := i + 1;
      }
      var found := FirstRed(Snapshot(points));
      cursor := Some(if found.Some? then Pointer else Default);
      forall j | 0 <= j < |points| && Hit(ex, ey, points[j].x, points[j].y)
        ensures Snapshot(points)[j].color == Red
      {
      }
      if found.Some? {
        assert Hit(ex, ey, points[found.value].x, points[found.value].y);
      }
    }
  }
}
