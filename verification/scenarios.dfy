/**
 * Event sequences on one session, checked from the handlers' contracts
 * alone. Each handler runs as its own operation; the browser's ordering of
 * mousedown, mouseup and click is not modelled.
 */
module Scenarios {
  import opened Editor

  /** Place a point, hover it, pick it up, drag it to (30, 30) and drop it there. */
  method DragScenario()
  {
    var s := new Session();
    s.OnClick(10, 10);
    assert s.View() == [Pt(10, 10, Unset)];
    var p := s.points[0];
    var cursor := s.OnMouseMove(11, 11);
    assert s.View()[0] == Pt(10, 10, Red);
    assert cursor == Some(Pointer);
    s.OnMouseDown();
    assert s.activePoint == p;
    cursor := s.OnMouseMove(30, 30);
    assert cursor == None;
    s.OnClick(30, 30);
    assert s.activePoint == null && s.points == [p];
    assert s.View() == [Pt(30, 30, Red)];
  }

  /**
   * Place two points and hover the second: the context menu removes nothing,
   * because only a dragged point is filtered out.
   */
  method HoverOnlyContextMenuScenario()
  {
    var s := new Session();
    s.OnClick(10, 10);
    s.OnClick(50, 50);
    var cursor := s.OnMouseMove(55, 55);
    assert s.View()[0].color == Black && s.View()[1].color == Red;
    var before := s.points;
    s.OnContextMenu();
    assert s.points == before && |s.points| == 2;
  }

  /** Place two points, pick up the second and remove it: the first keeps its place and label. */
  method RemoveDraggedScenario()
  {
    var s := new Session();
    s.OnClick(10, 10);
    s.OnClick(50, 50);
    var first, second := s.points[0], s.points[1];
    var cursor := s.OnMouseMove(55, 55);
    s.OnMouseDown();
    assert s.activePoint == second;
    s.OnContextMenu();
    assert s.points == [first];
    assert s.View() == [Pt(10, 10, Black)];
  }
}
