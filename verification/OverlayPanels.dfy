/**
 The lock overlay: panels that cover the viewport except for exclusion holes
 (src/react/protected-gate/overlay-panels.ts). Coordinates are exact reals and
 rectangles are half-open sets of points.
 */
module OverlayPanels {
  datatype Panel = Panel(top: real, left: real, width: real, height: real)
  datatype Rect = Rect(top: real, left: real, right: real, bottom: real)

  function PanelToRect(p: Panel): Rect {
    Rect(p.top, p.left, p.left + p.width, p.top + p.height)
  }

  predicate RectsIntersect(p: Panel, hole: Rect) {
    var rect := PanelToRect(p);
    rect.left < hole.right && rect.right > hole.left && rect.top < hole.bottom && rect.bottom > hole.top
  }

  /** A bounding rectangle as the DOM measures it: never inside out. */
  predicate WellFormed(hole: Rect) {
    hole.left <= hole.right && hole.top <= hole.bottom
  }

  function Max(x: real, y: real): real {
    if x < y then y else x
  }

  function Min(x: real, y: real): real {
    if x < y then x else y
  }

  // ---------------------------------------------------------------- points and areas

  predicate InRect(r: Rect, x: real, y: real) {
    r.left <= x < r.right && r.top <= y < r.bottom
  }

  predicate InPanel(p: Panel, x: real, y: real) {
    InRect(PanelToRect(p), x, y)
  }

  /** How many of the panels contain the point. */
  function Cover(ps: seq<Panel>, x: real, y: real): (n: nat)
    decreases |ps|
  {
    if ps == [] then 0 else (if InPanel(ps[0], x, y) then 1 else 0) + Cover(ps[1..], x, y)
  }

  predicate InSomeHole(holes: seq<Rect>, x: real, y: real) {
    exists h <- holes :: InRect(h, x, y)
  }

  function Area(p: Panel): real {
    p.width * p.height
  }

  function TotalArea(ps: seq<Panel>): real
    decreases |ps|
  {
    if ps == [] then 0.0 else Area(ps[0]) + TotalArea(ps[1..])
  }

  /** Area of the part of the panel that lies in the hole. */
  function OverlapArea(p: Panel, hole: Rect): real {
    var r := PanelToRect(p);
    Max(0.0, Min(r.right, hole.right) - Max(r.left, hole.left)) * Max(0.0, Min(r.bottom, hole.bottom) - Max(r.top, hole.top))
  }

  predicate NonEmpty(p: Panel) {
    0.0 < p.width && 0.0 < p.height
  }

  predicate Inside(p: Panel, outer: Panel) {
    var a, b := PanelToRect(p), PanelToRect(outer);
    b.left <= a.left && a.right <= b.right && b.top <= a.top && a.bottom <= b.bottom
  }

  // ---------------------------------------------------------------- the code

  function When(c: bool, p: Panel): seq<Panel> {
    if c then [p] else []
  }

  function MidTop(p: Panel, hole: Rect): real {
    Max(p.top, hole.top)
  }

  function MidBottom(p: Panel, hole: Rect): real {
    Min(p.top + p.height, hole.bottom)
  }

  /** The strips above, below, left and right of the hole, and when each is there. */
  function Above(p: Panel, hole: Rect): Panel {
    Panel(p.top, p.left, p.width, hole.top - p.top)
  }

  function Below(p: Panel, hole: Rect): Panel {
    Panel(hole.bottom, p.left, p.width, p.top + p.height - hole.bottom)
  }

  function Before(p: Panel, hole: Rect): Panel {
    Panel(MidTop(p, hole), p.left, hole.left - p.left, MidBottom(p, hole) - MidTop(p, hole))
  }

  function After(p: Panel, hole: Rect): Panel {
    Panel(MidTop(p, hole), hole.right, p.left + p.width - hole.right, MidBottom(p, hole) - MidTop(p, hole))
  }

  predicate HasAbove(p: Panel, hole: Rect) {
    p.top < hole.top
  }

  predicate HasBelow(p: Panel, hole: Rect) {
    p.top + p.height > hole.bottom
  }

  predicate HasBefore(p: Panel, hole: Rect) {
    MidBottom(p, hole) > MidTop(p, hole) && p.left < hole.left
  }

  predicate HasAfter(p: Panel, hole: Rect) {
    MidBottom(p, hole) > MidTop(p, hole) && p.left + p.width > hole.right
  }

  function Pieces(p: Panel, hole: Rect): seq<Panel> {
    if !RectsIntersect(p, hole) then [p]
    else
      When(HasAbove(p, hole), Above(p, hole)) + When(HasBelow(p, hole), Below(p, hole))
      + When(HasBefore(p, hole), Before(p, hole)) + When(HasAfter(p, hole), After(p, hole))
  }

  method SubtractRectFromPanel(p: Panel, hole: Rect) returns (result: seq<Panel>)
    ensures result == Pieces(p, hole)
  {
    if !RectsIntersect(p, hole) {
      return [p];
    }
    var r := PanelToRect(p);
    result := [];
    if r.top < hole.top {
      result := result + [Panel(r.top, r.left, p.width, hole.top - r.top)];
    }
    if r.bottom > hole.bottom {
      result := result + [Panel(hole.bottom, r.left, p.width, r.bottom - hole.bottom)];
    }
    var midTop := Max(r.top, hole.top);
    var midBottom := Min(r.bottom, hole.bottom);
    if midBottom > midTop && r.left < hole.left {
      result := result + [Panel(midTop, r.left, hole.left - r.left, midBottom - midTop)];
    }
    if midBottom > midTop && r.right > hole.right {
      result := result + [Panel(midTop, hole.right, r.right - hole.right, midBottom - midTop)];
    }
  }

  function Carve(ps: seq<Panel>, hole: Rect): seq<Panel>
    decreases |ps|
  {
    if ps == [] then [] else Pieces(ps[0], hole) + Carve(ps[1..], hole)
  }

  function CarveAll(ps: seq<Panel>, holes: seq<Rect>): seq<Panel>
    decreases |holes|
  {
    if holes == [] then ps else CarveAll(Carve(ps, holes[0]), holes[1..])
  }

  function Visible(ps: seq<Panel>): seq<Panel>
    decreases |ps|
  {
    if ps == [] then [] else When(NonEmpty(ps[0]), ps[0]) + Visible(ps[1..])
  }

  function Viewport(width: real, height: real): Panel {
    Panel(0.0, 0.0, width, height)
  }

  function OverlayPanels(width: real, height: real, holes: seq<Rect>): seq<Panel> {
    Visible(CarveAll([Viewport(width, height)], holes))
  }

  lemma {:induction false} CarveSnoc(ps: seq<Panel>, p: Panel, hole: Rect)
    ensures Carve(ps + [p], hole) == Carve(ps, hole) + Pieces(p, hole)
    decreases |ps|
  {
    if ps == [] {
      assert ps + [p] == [p] && [p][1..] == [];
    } else {
      assert (ps + [p])[0] == ps[0] && (ps + [p])[1..] == ps[1..] + [p];
      CarveSnoc(ps[1..], p, hole);
    }
  }

  lemma {:induction false} VisibleSnoc(ps: seq<Panel>, p: Panel)
    ensures Visible(ps + [p]) == Visible(ps) + When(NonEmpty(p), p)
    decreases |ps|
  {
    if ps == [] {
      assert ps + [p] == [p] && [p][1..] == [];
    } else {
      assert (ps + [p])[0] == ps[0] && (ps + [p])[1..] == ps[1..] + [p];
      VisibleSnoc(ps[1..], p);
    }
  }

  /** `panels.flatMap(panel => subtractRectFromPanel(panel, hole))` */
  method CarvePanels(panels: seq<Panel>, hole: Rect) returns (next: seq<Panel>)
    ensures next == Carve(panels, hole)
  {
    next := [];
    for j := 0 to |panels|
      invariant next == Carve(panels[..j], hole)
    {
      assert panels[..j + 1] == panels[..j] + [panels[j]];
      CarveSnoc(panels[..j], panels[j], hole);
      var pieces := SubtractRectFromPanel(panels[j], hole);
      next := next + pieces;
    }
    assert panels[..|panels|] == panels;
  }

  method FilterVisible(panels: seq<Panel>) returns (result: seq<Panel>)
    ensures result == Visible(panels)
  {
    result := [];
    for j := 0 to |panels|
      invariant result == Visible(panels[..j])
    {
      assert panels[..j + 1] == panels[..j] + [panels[j]];
      VisibleSnoc(panels[..j], panels[j]);
      if panels[j].width > 0.0 && panels[j].height > 0.0 {
        result := result + [panels[j]];
      }
    }
    assert panels[..|panels|] == panels;
  }

  method ComputeVaultLockOverlayPanels(width: real, height: real, exclusions: seq<Rect>) returns (result: seq<Panel>)
    ensures result == OverlayPanels(width, height, exclusions)
  {
    var panels := [Viewport(width, height)];
    for i := 0 to |exclusions|
      invariant CarveAll(panels, exclusions[i..]) == CarveAll([Viewport(width, height)], exclusions)
    {
      assert exclusions[i..][0] == exclusions[i] && exclusions[i..][1..] == exclusions[i + 1..];
      panels := CarvePanels(panels, exclusions[i]);
    }
    assert exclusions[|exclusions|..] == [];
    result := FilterVisible(panels);
  }

  // ---------------------------------------------------------------- what is cut, and into what

  lemma PiecesAreSmaller(p: Panel, hole: Rect)
    requires RectsIntersect(p, hole)
    ensures forall q <- Pieces(p, hole) :: q.width < p.width || q.height < p.height
  {
  }

  /** A panel is left whole exactly when the hole lies beside it, above it or below it; touching is not cutting. */
  lemma LeftWholeExactlyWhen(p: Panel, hole: Rect)
    requires NonEmpty(p)
    ensures Pieces(p, hole) == [p] <==>
            p.left + p.width <= hole.left || hole.right <= p.left || p.top + p.height <= hole.top || hole.bottom <= p.top
  {
    assert p in [p];
    if RectsIntersect(p, hole) {
      PiecesAreSmaller(p, hole);
    }
  }

  /** No piece of a panel that has an area is without one, so the last filter only ever drops an empty viewport. */
  lemma PiecesAreNonEmpty(p: Panel, hole: Rect)
    requires NonEmpty(p)
    ensures forall q <- Pieces(p, hole) :: NonEmpty(q)
  {
  }

  // ---------------------------------------------------------------- exact disjoint cover

  lemma {:induction false} CoverConcat(ps: seq<Panel>, qs: seq<Panel>, x: real, y: real)
    ensures Cover(ps + qs, x, y) == Cover(ps, x, y) + Cover(qs, x, y)
    decreases |ps|
  {
    if ps == [] {
      assert ps + qs == qs;
    } else {
      assert (ps + qs)[0] == ps[0] && (ps + qs)[1..] == ps[1..] + qs;
      CoverConcat(ps[1..], qs, x, y);
    }
  }

  lemma CoverWhen(c: bool, p: Panel, x: real, y: real)
    ensures Cover(When(c, p), x, y) == if c && InPanel(p, x, y) then 1 else 0
  {
  }

  function Indicator(c: bool): nat {
    if c then 1 else 0
  }

  function StripCount(p: Panel, hole: Rect, x: real, y: real): nat {
    Indicator(HasAbove(p, hole) && InPanel(Above(p, hole), x, y))
    + Indicator(HasBelow(p, hole) && InPanel(Below(p, hole), x, y))
    + Indicator(HasBefore(p, hole) && InPanel(Before(p, hole), x, y))
    + Indicator(HasAfter(p, hole) && InPanel(After(p, hole), x, y))
  }

  /** The four strips and the hole split the panel. */
  lemma StripsSplitPanel(p: Panel, hole: Rect, x: real, y: real)
    requires WellFormed(hole) && RectsIntersect(p, hole)
    ensures StripCount(p, hole, x, y) == Indicator(InPanel(p, x, y) && !InRect(hole, x, y))
  {
  }

  lemma CoverFour(a: seq<Panel>, b: seq<Panel>, c: seq<Panel>, d: seq<Panel>, x: real, y: real)
    ensures Cover(a + b + c + d, x, y) == Cover(a, x, y) + Cover(b, x, y) + Cover(c, x, y) + Cover(d, x, y)
  {
    CoverConcat(a + b + c, d, x, y);
    CoverConcat(a + b, c, x, y);
    CoverConcat(a, b, x, y);
  }

  lemma PiecesAreStrips(p: Panel, hole: Rect, x: real, y: real)
    requires RectsIntersect(p, hole)
    ensures Cover(Pieces(p, hole), x, y) == StripCount(p, hole, x, y)
  {
    CoverFour(When(HasAbove(p, hole), Above(p, hole)), When(HasBelow(p, hole), Below(p, hole)),
              When(HasBefore(p, hole), Before(p, hole)), When(HasAfter(p, hole), After(p, hole)), x, y);
    CoverWhen(HasAbove(p, hole), Above(p, hole), x, y);
    CoverWhen(HasBelow(p, hole), Below(p, hole), x, y);
    CoverWhen(HasBefore(p, hole), Before(p, hole), x, y);
    CoverWhen(HasAfter(p, hole), After(p, hole), x, y);
  }

  /** Each point of the panel outside the hole lies in exactly one piece, and no other point in any. */
  predicate CoversAt(p: Panel, hole: Rect, x: real, y: real) {
    Cover(Pieces(p, hole), x, y) == Indicator(InPanel(p, x, y) && !InRect(hole, x, y))
  }

  lemma PiecesCoverExactly(p: Panel, hole: Rect, x: real, y: real)
    requires WellFormed(hole)
    ensures CoversAt(p, hole, x, y)
  {
    if RectsIntersect(p, hole) {
      PiecesAreStrips(p, hole, x, y);
      StripsSplitPanel(p, hole, x, y);
    }
  }

  /** Inside out, and met by the panel: upside down, or with height but right to left. */
  predicate InsideOutFor(p: Panel, hole: Rect) {
    RectsIntersect(p, hole) && (hole.bottom < hole.top || (hole.right < hole.left && hole.top < hole.bottom))
  }

  lemma FlatHoleSplits(p: Panel, hole: Rect, x: real, y: real)
    requires RectsIntersect(p, hole) && hole.top == hole.bottom
    ensures StripCount(p, hole, x, y) == Indicator(InPanel(p, x, y) && !InRect(hole, x, y))
  {
  }

  lemma InsideOutOverlaps(p: Panel, hole: Rect) returns (x: real, y: real)
    requires NonEmpty(p) && InsideOutFor(p, hole)
    ensures StripCount(p, hole, x, y) >= 2
  {
    if hole.bottom < hole.top {
      x, y := p.left, hole.bottom;
    } else {
      x, y := hole.right, MidTop(p, hole);
    }
  }

  /** A split is exact exactly when the hole is not inside out where the panel meets it; else strips overlap. */
  lemma SplitsExactlyWhen(p: Panel, hole: Rect)
    requires NonEmpty(p)
    ensures (forall x, y :: CoversAt(p, hole, x, y)) <==> !InsideOutFor(p, hole)
  {
    if InsideOutFor(p, hole) {
      var x, y := InsideOutOverlaps(p, hole);
      PiecesAreStrips(p, hole, x, y);
      assert !CoversAt(p, hole, x, y);
    } else {
      forall x, y
        ensures CoversAt(p, hole, x, y)
      {
        if WellFormed(hole) {
          PiecesCoverExactly(p, hole, x, y);
        } else if RectsIntersect(p, hole) {
          PiecesAreStrips(p, hole, x, y);
          FlatHoleSplits(p, hole, x, y);
        } else {
          assert !InRect(hole, x, y);
        }
      }
    }
  }

  lemma {:induction false} CarveCovers(ps: seq<Panel>, hole: Rect, x: real, y: real)
    requires WellFormed(hole)
    ensures Cover(Carve(ps, hole), x, y) == if InRect(hole, x, y) then 0 else Cover(ps, x, y)
    decreases |ps|
  {
    if ps != [] {
      PiecesCoverExactly(ps[0], hole, x, y);
      CarveCovers(ps[1..], hole, x, y);
      CoverConcat(Pieces(ps[0], hole), Carve(ps[1..], hole), x, y);
    }
  }

  lemma {:induction false} CarveAllCovers(ps: seq<Panel>, holes: seq<Rect>, x: real, y: real)
    requires forall h <- holes :: WellFormed(h)
    ensures Cover(CarveAll(ps, holes), x, y) == if InSomeHole(holes, x, y) then 0 else Cover(ps, x, y)
    decreases |holes|
  {
    if holes != [] {
      assert holes[0] in holes;
      CarveCovers(ps, holes[0], x, y);
      CarveAllCovers(Carve(ps, holes[0]), holes[1..], x, y);
      assert holes == [holes[0]] + holes[1..];
      assert InSomeHole(holes, x, y) <==> InRect(holes[0], x, y) || InSomeHole(holes[1..], x, y);
    }
  }

  lemma {:induction false} VisibleCovers(ps: seq<Panel>, x: real, y: real)
    ensures Cover(Visible(ps), x, y) == Cover(ps, x, y)
    decreases |ps|
  {
    if ps != [] {
      VisibleCovers(ps[1..], x, y);
      CoverConcat(When(NonEmpty(ps[0]), ps[0]), Visible(ps[1..]), x, y);
      CoverWhen(NonEmpty(ps[0]), ps[0], x, y);
    }
  }

  /**
   For any viewport and any well-formed holes, a point lies in exactly one of the returned panels
   if it is in the viewport and in no hole, and in none otherwise.
   */
  lemma OverlayCoversExactly(width: real, height: real, holes: seq<Rect>, x: real, y: real)
    requires forall h <- holes :: WellFormed(h)
    ensures Cover(OverlayPanels(width, height, holes), x, y) ==
            if 0.0 <= x < width && 0.0 <= y < height && !InSomeHole(holes, x, y) then 1 else 0
  {
    var all := [Viewport(width, height)];
    assert all[1..] == [];
    assert Cover(all, x, y) == if 0.0 <= x < width && 0.0 <= y < height then 1 else 0;
    CarveAllCovers(all, holes, x, y);
    VisibleCovers(CarveAll(all, holes), x, y);
  }

  lemma {:induction false} CoverCountsEach(ps: seq<Panel>, i: nat, x: real, y: real)
    requires i < |ps| && InPanel(ps[i], x, y)
    ensures Cover(ps, x, y) >= 1
    ensures forall j :: i < j < |ps| && InPanel(ps[j], x, y) ==> Cover(ps, x, y) >= 2
    decreases |ps|
  {
    if i > 0 {
      assert ps[1..][i - 1] == ps[i];
      CoverCountsEach(ps[1..], i - 1, x, y);
      assert forall j :: i < j < |ps| ==> ps[1..][j - 1] == ps[j];
    } else {
      forall j | i < j < |ps| && InPanel(ps[j], x, y)
        ensures Cover(ps[1..], x, y) >= 1
      {
        assert ps[1..][j - 1] == ps[j];
        CoverCountsEach(ps[1..], j - 1, x, y);
      }
    }
  }

  lemma {:induction false} VisibleAreNonEmpty(ps: seq<Panel>)
    ensures forall p <- Visible(ps) :: NonEmpty(p)
    decreases |ps|
  {
    if ps != [] {
      VisibleAreNonEmpty(ps[1..]);
    }
  }

  lemma CornerInside(p: Panel)
    requires NonEmpty(p)
    ensures InPanel(p, p.left, p.top)
  {
  }

  /** The returned panels are non-empty, pairwise disjoint, and within the viewport. */
  lemma OverlayPanelsAreSound(width: real, height: real, holes: seq<Rect>)
    requires forall h <- holes :: WellFormed(h)
    ensures var ps := OverlayPanels(width, height, holes);
            && (forall p <- ps :: NonEmpty(p) && Inside(p, Viewport(width, height)))
            && (forall i, j, x, y :: 0 <= i < j < |ps| ==> !(InPanel(ps[i], x, y) && InPanel(ps[j], x, y)))
  {
    var ps := OverlayPanels(width, height, holes);
    VisibleAreNonEmpty(CarveAll([Viewport(width, height)], holes));
    forall i, j, x, y | 0 <= i < j < |ps|
      ensures !(InPanel(ps[i], x, y) && InPanel(ps[j], x, y))
    {
      OverlayCoversExactly(width, height, holes, x, y);
      if InPanel(ps[i], x, y) {
        CoverCountsEach(ps, i, x, y);
      }
    }
    forall p | p in ps
      ensures Inside(p, Viewport(width, height))
    {
      PanelWithinViewport(width, height, holes, p);
    }
  }

  lemma PanelWithinViewport(width: real, height: real, holes: seq<Rect>, p: Panel)
    requires (forall h <- holes :: WellFormed(h)) && p in OverlayPanels(width, height, holes) && NonEmpty(p)
    ensures Inside(p, Viewport(width, height))
  {
    var ps := OverlayPanels(width, height, holes);
    var i :| 0 <= i < |ps| && ps[i] == p;
    var r := PanelToRect(p);
    PointWithinViewport(width, height, holes, i, p.left, p.top);
    if r.right > width {
      PointWithinViewport(width, height, holes, i, Max(p.left, width), p.top);
    }
    if r.bottom > height {
      PointWithinViewport(width, height, holes, i, p.left, Max(p.top, height));
    }
  }

  lemma PointWithinViewport(width: real, height: real, holes: seq<Rect>, i: nat, x: real, y: real)
    requires forall h <- holes :: WellFormed(h)
    requires i < |OverlayPanels(width, height, holes)| && InPanel(OverlayPanels(width, height, holes)[i], x, y)
    ensures 0.0 <= x < width && 0.0 <= y < height
  {
    OverlayCoversExactly(width, height, holes, x, y);
    CoverCountsEach(OverlayPanels(width, height, holes), i, x, y);
  }

  // ---------------------------------------------------------------- area

  lemma {:induction false} AreaConcat(ps: seq<Panel>, qs: seq<Panel>)
    ensures TotalArea(ps + qs) == TotalArea(ps) + TotalArea(qs)
    decreases |ps|
  {
    if ps == [] {
      assert ps + qs == qs;
    } else {
      assert (ps + qs)[0] == ps[0] && (ps + qs)[1..] == ps[1..] + qs;
      AreaConcat(ps[1..], qs);
    }
  }

  lemma AreaWhen(c: bool, p: Panel)
    ensures TotalArea(When(c, p)) == if c then Area(p) else 0.0
  {
  }

  lemma AreaFour(a: seq<Panel>, b: seq<Panel>, c: seq<Panel>, d: seq<Panel>)
    ensures TotalArea(a + b + c + d) == TotalArea(a) + TotalArea(b) + TotalArea(c) + TotalArea(d)
  {
    AreaConcat(a + b + c, d);
    AreaConcat(a + b, c);
    AreaConcat(a, b);
  }

  lemma StripsAddUp(w: real, h: real, above: real, below: real, mid: real, before: real, after: real, over: real)
    requires h == above + below + mid && w == before + after + over
    ensures w * h == w * above + w * below + before * mid + after * mid + over * mid
  {
    assert w * h == w * above + w * below + w * mid;
    assert w * mid == before * mid + after * mid + over * mid;
  }

  lemma ProductOfPositives(x: real, y: real)
    ensures Max(0.0, x) * Max(0.0, y) == if 0.0 < x && 0.0 < y then x * y else 0.0
  {
  }

  lemma StripAreas(p: Panel, hole: Rect)
    requires NonEmpty(p) && WellFormed(hole) && RectsIntersect(p, hole)
    ensures Area(p) ==
            (if HasAbove(p, hole) then Area(Above(p, hole)) else 0.0)
            + (if HasBelow(p, hole) then Area(Below(p, hole)) else 0.0)
            + (if HasBefore(p, hole) then Area(Before(p, hole)) else 0.0)
            + (if HasAfter(p, hole) then Area(After(p, hole)) else 0.0)
            + OverlapArea(p, hole)
  {
    var above, below := hole.top - p.top, p.top + p.height - hole.bottom;
    var mid := MidBottom(p, hole) - MidTop(p, hole);
    var before, after := hole.left - p.left, p.left + p.width - hole.right;
    var over := Min(p.left + p.width, hole.right) - Max(p.left, hole.left);
    ProductOfPositives(p.width, above);
    ProductOfPositives(p.width, below);
    ProductOfPositives(before, mid);
    ProductOfPositives(after, mid);
    assert Max(0.0, mid) == mid && Max(0.0, over) == over && Max(0.0, p.width) == p.width;
    StripsAddUp(p.width, p.height, Max(0.0, above), Max(0.0, below), mid, Max(0.0, before), Max(0.0, after), over);
  }

  lemma DisjointOverlapIsEmpty(p: Panel, hole: Rect)
    requires !RectsIntersect(p, hole)
    ensures OverlapArea(p, hole) == 0.0
  {
  }

  /** Splitting loses exactly the area that falls in the hole. */
  lemma SplitConservesArea(p: Panel, hole: Rect)
    requires NonEmpty(p) && WellFormed(hole)
    ensures Area(p) == TotalArea(Pieces(p, hole)) + OverlapArea(p, hole)
  {
    if RectsIntersect(p, hole) {
      AreaFour(When(HasAbove(p, hole), Above(p, hole)), When(HasBelow(p, hole), Below(p, hole)),
               When(HasBefore(p, hole), Before(p, hole)), When(HasAfter(p, hole), After(p, hole)));
      AreaWhen(HasAbove(p, hole), Above(p, hole));
      AreaWhen(HasBelow(p, hole), Below(p, hole));
      AreaWhen(HasBefore(p, hole), Before(p, hole));
      AreaWhen(HasAfter(p, hole), After(p, hole));
      StripAreas(p, hole);
    } else {
      DisjointOverlapIsEmpty(p, hole);
      assert TotalArea([p]) == Area(p);
    }
  }
}
