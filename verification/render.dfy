/**
 * The parts of the render tick that compute something: the labelled square
 * drawn for each point, and the pairing of consecutive curve samples into
 * the line segments of the drawn polyline.
 */
module Render {
  import opened Editor

  /** How far above its point the number is written. */
  const LabelRise: int := 12

  /** One point as drawn: its hit-box square, fill colour, the number written above it and that number's height. */
  datatype Mark = Mark(x: int, y: int, fill: Color, number: int, numberY: int)

  /** `point.color || 'black'`: a point with no colour yet is drawn black. */
  function Fill(c: Color): (f: Color)
    ensures f != Unset
    ensures f == Red <==> c == Red
  {
    if c == Red then Red else Black
  }

  /** The mark of a point shown with the given number. */
  function MarkOf(p: Pt, number: int): Mark
  {
    Mark(p.x, p.y, Fill(p.color), number, p.y - LabelRise)
  }

  /** The marks drawn for a list of points, in drawing order. */
  function Marks(v: seq<Pt>): seq<Mark>
  {
    if v == [] then [] else Marks(v[..|v| - 1]) + [MarkOf(v[|v| - 1], |v|)]
  }

  /** The point at list position i carries the 1-based label i + 1. */
  lemma {:induction false} MarksAt(v: seq<Pt>, i: int)
    requires 0 <= i < |v|
    ensures |Marks(v)| == |v|
    ensures Marks(v)[i] == MarkOf(v[i], i + 1)
  {
    var n := |v| - 1;
    if i < n {
      MarksAt(v[..n], i);
    } else if n > 0 {
      MarksAt(v[..n], 0);
    }
  }

  /** Appending a point leaves every earlier mark as it was and numbers the new one by the new length. */
  lemma MarksAppend(v: seq<Pt>, p: Pt)
    ensures Marks(v + [p]) == Marks(v) + [MarkOf(p, |v| + 1)]
  {
  }

  /** `displayPoints`: one mark per point, walked in list order. */
  method DisplayPoints(s: Session) returns (marks: seq<Mark>)
    ensures marks == Marks(s.View())
    ensures |marks| == |s.points|
  {
    ghost var v := s.View();
    marks := [];
    var i := 0;
    while i < |s.points|
      invariant 0 <= i <= |s.points|
      invariant marks == Marks(v[..i])
    {
      var p := s.points[i];
      assert v[..i + 1][..i] == v[..i];
      marks := marks + [MarkOf(Pt(p.x, p.y, p.color), i + 1)];
      i := i + 1;
    }
    assert v[..i] == v;
    if |v| > 0 {
      MarksAt(v, 0);
    }
  }

  /**
   * A click with nothing dragged, followed by the next tick's point drawing:
   * every earlier mark is drawn as before, and the new point is drawn last,
   * black, at the click position, numbered by the new length of the list.
   */
  method ClickThenDisplay(s: Session, ex: int, ey: int) returns (marks: seq<Mark>)
    requires s.Valid() && s.activePoint == null
    modifies s
    ensures marks == old(Marks(s.View())) + [Mark(ex, ey, Black, |old(s.points)| + 1, ey - LabelRise)]
  {
    s.OnClick(ex, ey);
    marks := DisplayPoints(s);
    MarksAppend(old(s.View()), Pt(ex, ey, Unset));
  }

  /** lines holds one segment per pair of consecutive samples, and nothing else. */
  ghost predicate SegmentsOf<T>(samples: seq<T>, lines: seq<(T, T)>)
  {
    && |lines| == (if samples == [] then 0 else |samples| - 1)
    && forall i :: 0 <= i < |lines| ==> lines[i] == (samples[i], samples[i + 1])
  }

  /** The segment-pairing loop of `drawBezierCurve`. */
  method PairSegments<T>(samples: seq<T>) returns (lines: seq<(T, T)>)
    ensures SegmentsOf(samples, lines)
  {
    lines := [];
    var i := 0;
    while i < |samples| - 1
      invariant 0 <= i && (i == 0 || i <= |samples| - 1)
      invariant |lines| == i
      invariant forall j :: 0 <= j < i ==> lines[j] == (samples[j], samples[j + 1])
    {
      lines := lines + [(samples[i], samples[i + 1])];
      i := i + 1;
    }
  }

  /** The vertices a polyline passes through, in order. */
  function Joints<T>(lines: seq<(T, T)>): seq<T>
  {
    if lines == [] then [] else [lines[0].0] + seq(|lines|, i requires 0 <= i < |lines| => lines[i].1)
  }

  /**
   * Drawing the segments traces the samples in order: from two or more
   * samples the polyline's vertices are exactly the samples.
   */
  lemma JointsOfSegments<T>(samples: seq<T>, lines: seq<(T, T)>)
    requires SegmentsOf(samples, lines) && |samples| != 1
    ensures Joints(lines) == samples
  {
    if samples != [] {
      var r := Joints(lines);
      assert |r| == |samples|;
      forall i | 0 <= i < |samples| ensures r[i] == samples[i] {
        if i == 0 {
          assert lines[0] == (samples[0], samples[1]);
        } else {
          assert lines[i - 1] == (samples[i - 1], samples[i]);
          assert r[i] == lines[i - 1].1;
        }
      }
    }
  }
}
