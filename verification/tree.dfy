/** Diagramming.Tree: a node whose first child is its content and whose other
    children are its branches, with an expansion flag. Its layout pass writes
    its own size and baselines and its children's offsets; its display pass
    issues commands to a surface. Children are opaque: each carries the extent
    its own prepareDisplay left, and its own display is recorded as a call. */
module Diagramming {
  import opened Layout
  import opened Painting
  import Surface
  import Serialization

  class Tree {
    var expanded: bool
    var children: seq<Placed>
    var width: int
    var height: int
    var horzBaseline: int
    var vertBaseline: int

    /** A new tree starts expanded; `kids` are the children added to it. */
    constructor (kids: seq<Placed>)
      ensures expanded && children == kids
    {
      expanded := true;
      children := kids;
    }

    /** The node's own size and baselines. */
    function Geometry(): Extent
      reads this
    {
      Extent(width, height, horzBaseline, vertBaseline)
    }

    // ------------------------------------------------------------ serialisation

    method GetSerializationStrings() returns (strings: seq<string>)
      ensures Serialization.Decode(strings) == Serialization.Ok(expanded)
      ensures strings == Serialization.Encode(expanded)
    {
      strings := [if expanded then "True" else "False"];
    }

    /** Any string other than the two literals is refused and the flag kept. */
    method SetSerializationStrings(strings: seq<string>) returns (r: Serialization.Result<bool>)
      modifies this
      ensures r == Serialization.Decode(strings)
      ensures expanded == (if r.Ok? then r.value else old(expanded))
      ensures children == old(children) && Geometry() == old(Geometry())
    {
      if |strings| == 0 || (strings[0] != "True" && strings[0] != "False") {
        return Serialization.Err(Serialization.InvalidState);
      }
      SetExpanded(strings[0] == "True");
      r := Serialization.Ok(expanded);
    }

    /** set("Expanded", value); other attribute names belong to the base class. */
    method SetExpanded(value: bool)
      modifies this
      ensures expanded == value
      ensures children == old(children) && Geometry() == old(Geometry())
    {
      expanded := value;
    }

    // ------------------------------------------------------------------- layout

    method PrepareDisplay(o: Orientation)
      requires |children| > 0
      modifies this
      ensures expanded == old(expanded)
      ensures o == Horizontal ==>
        children == HorizontalChildren(old(children), expanded) &&
        Geometry() == HorizontalExtent(old(children), expanded)
      ensures o == Vertical ==>
        children == VerticalChildren(old(children), expanded) &&
        Geometry() == VerticalExtent(old(children), expanded)
    {
      if o == Horizontal {
        PrepareDisplayHorizontal();
      } else {
        PrepareDisplayVertical();
      }
    }

    /** The horizontal pass: content inset, branches in a row below it,
        whichever of the two is narrower centred on the other. */
    method PrepareDisplayHorizontal()
      requires |children| > 0
      modifies this
      ensures expanded == old(expanded)
      ensures children == HorizontalChildren(old(children), expanded)
      ensures Geometry() == HorizontalExtent(old(children), expanded)
    {
      var kids := children;
      var n := |kids|;
      var placed := kids[0 := kids[0].(x := Gap, y := Gap)];
      var w := Gap + kids[0].extent.width + Gap;
      var h := Gap + kids[0].extent.height + Gap;
      if n > 1 && expanded {
        h := h + 2 * Gap;
        var row, rowWidth, maxHeight := LayRow(kids, h);
        if w > rowWidth {
          // root is wider: shift the row to the middle
          placed := ShiftRow(row, Half(w - rowWidth));
          placed := placed[0 := kids[0].(x := Gap, y := Gap)];
        } else {
          // root is thinner: the row sets the width, the content is centred
          w := rowWidth;
          placed := row[0 := kids[0].(x := Half(w - kids[0].extent.width), y := Gap)];
        }
        h := h + maxHeight;
      }
      HorizontalPassAgrees(kids, expanded, placed);
      children, width, height := placed, w, h;
      horzBaseline, vertBaseline := Half(h), Half(w);
    }

    /** The vertical pass: content inset, branches stacked below it, indented. */
    method PrepareDisplayVertical()
      requires |children| > 0
      modifies this
      ensures expanded == old(expanded)
      ensures children == VerticalChildren(old(children), expanded)
      ensures Geometry() == VerticalExtent(old(children), expanded)
    {
      var kids := children;
      var n := |kids|;
      var placed := kids[0 := kids[0].(x := Gap, y := Gap)];
      var w := Gap + kids[0].extent.width + Gap;
      var h := Gap + kids[0].extent.height + Gap;
      if n > 1 && expanded {
        var column;
        column, w, h := StackBranches(kids);
        placed := column[0 := kids[0].(x := Gap, y := Gap)];
      }
      VerticalPassAgrees(kids, expanded, placed);
      children, width, height := placed, w, h;
      horzBaseline, vertBaseline := Gap + kids[0].extent.horzBaseline, Half(w);
    }

    // ------------------------------------------------------------------ display

    method Display(o: Orientation, ctx: Surface.Canvas, x: int, y: int)
      requires |children| > 0
      modifies ctx
      ensures ctx.fillStyle == old(ctx.fillStyle)
      ensures o == Horizontal ==>
        ctx.log == old(ctx.log) + HorizontalPaint(children, expanded, vertBaseline, x, y, old(ctx.fillStyle))
      ensures o == Vertical ==>
        ctx.log == old(ctx.log) + VerticalPaint(children, expanded, x, y, old(ctx.fillStyle))
    {
      if o == Horizontal {
        DisplayHorizontal(ctx, x, y);
      } else {
        DisplayVertical(ctx, x, y);
      }
    }

    /** The frame centred on the vertical baseline, the content, and when
        expanded the connectors and the branches. */
    method DisplayHorizontal(ctx: Surface.Canvas, x: int, y: int)
      requires |children| > 0
      modifies ctx
      ensures ctx.fillStyle == old(ctx.fillStyle)
      ensures ctx.log == old(ctx.log) + HorizontalPaint(children, expanded, vertBaseline, x, y, old(ctx.fillStyle))
    {
      var kids := children;
      var child := kids[0];
      var xxx := vertBaseline;
      var yyy := Gap + child.extent.height + Gap;
      var w := child.extent.width;
      var sx := xxx - Half(w);
      DrawFrame(ctx, !expanded && |kids| > 1, x + sx - Gap, y, w + 2 * Gap, yyy);
      ctx.Show(0, x + child.x, y + child.y);
      if !expanded {
        return;
      }
      ctx.BeginPath();
      TraceHorizontalConnectors(ctx, kids, xxx, x, y);
      ctx.Stroke();
      ShowBranches(ctx, kids, x, y);
      PaintAssembles(old(ctx.log), HorizontalFrame(kids, expanded, xxx, x, y, old(ctx.fillStyle)),
        ShowChild(kids, 0, x, y), HorizontalConnectors(kids, xxx, x, y), BranchShows(kids, |kids|, x, y));
    }

    /** The frame at the node's corner, the content, and when expanded the
        rail with its ticks and the branches. */
    method DisplayVertical(ctx: Surface.Canvas, x: int, y: int)
      requires |children| > 0
      modifies ctx
      ensures ctx.fillStyle == old(ctx.fillStyle)
      ensures ctx.log == old(ctx.log) + VerticalPaint(children, expanded, x, y, old(ctx.fillStyle))
    {
      var kids := children;
      var child := kids[0];
      DrawFrame(ctx, !expanded && |kids| > 1, x, y, Gap + child.extent.width + Gap, Gap + child.extent.height + Gap);
      ctx.Show(0, x + child.x, y + child.y);
      if !expanded {
        return;
      }
      ctx.BeginPath();
      TraceVerticalConnectors(ctx, kids, x, y);
      ctx.Stroke();
      ShowBranches(ctx, kids, x, y);
      PaintAssembles(old(ctx.log), VerticalFrame(kids, expanded, x, y, old(ctx.fillStyle)),
        ShowChild(kids, 0, x, y), VerticalConnectors(kids, x, y), BranchShows(kids, |kids|, x, y));
    }
  }

  // ------------------------------------------------------------ layout steps

  /** The first loop of the horizontal pass: branches 1 .. n-1 side by side at
      height `top`, a gutter between neighbours; it also yields the row's width
      and the tallest branch. The content is left as it was. */
  method LayRow(kids: seq<Placed>, top: int) returns (row: seq<Placed>, w: int, maxHeight: int)
    requires |kids| > 1
    ensures |row| == |kids| && row[0] == kids[0]
    ensures forall j :: 1 <= j < |kids| ==> row[j] == kids[j].(x := RowStart(kids, j), y := top)
    ensures w == RowWidth(kids) && maxHeight == Tallest(kids, |kids|)
  {
    var n := |kids|;
    row, w, maxHeight := kids, 0, 0;
    var i := 1;
    while i < n
      invariant 1 <= i <= n && |row| == n && row[0] == kids[0]
      invariant w == (if i == 1 then 0 else RowStart(kids, i) - Gap)
      invariant maxHeight == Tallest(kids, i)
      invariant forall j :: 1 <= j < i ==> row[j] == kids[j].(x := RowStart(kids, j), y := top)
      invariant forall j :: i <= j < n ==> row[j] == kids[j]
    {
      var child := row[i];
      if i > 1 {
        w := w + Gap;
      }
      row := row[i := child.(x := w, y := top)];
      w := w + child.extent.width;
      maxHeight := Max(maxHeight, child.extent.height);
      i := i + 1;
    }
  }

  /** The second loop of the horizontal pass: every branch moved right by `excess`. */
  method ShiftRow(row: seq<Placed>, excess: int) returns (shifted: seq<Placed>)
    requires |row| > 0
    ensures |shifted| == |row| && shifted[0] == row[0]
    ensures forall j :: 1 <= j < |row| ==> shifted[j] == row[j].(x := row[j].x + excess)
  {
    shifted := row;
    var i := 1;
    while i < |row|
      invariant 1 <= i <= |row| && |shifted| == |row| && shifted[0] == row[0]
      invariant forall j :: 1 <= j < i ==> shifted[j] == row[j].(x := row[j].x + excess)
      invariant forall j :: i <= j < |row| ==> shifted[j] == row[j]
    {
      shifted := shifted[i := shifted[i].(x := shifted[i].x + excess)];
      i := i + 1;
    }
  }

  /** The loop of the vertical pass: branches 1 .. n-1 stacked under the
      framed content, a gap above each, indented by two gaps; it also yields
      the node's width and height. The content is left as it was. */
  method StackBranches(kids: seq<Placed>) returns (column: seq<Placed>, width: int, height: int)
    requires |kids| > 1
    ensures |column| == |kids| && column[0] == kids[0]
    ensures forall j :: 1 <= j < |kids| ==> column[j] == kids[j].(x := 2 * Gap, y := StackTop(kids, j))
    ensures width == Widest(kids, |kids|)
    ensures height == Gap + kids[0].extent.height + Gap + Stack(kids, |kids|)
  {
    var n := |kids|;
    column := kids;
    width := Gap + kids[0].extent.width + Gap;
    height := Gap + kids[0].extent.height + Gap;
    var i := 1;
    while i < n
      invariant 1 <= i <= n && |column| == n && column[0] == kids[0]
      invariant width == Widest(kids, i)
      invariant height == Gap + kids[0].extent.height + Gap + Stack(kids, i)
      invariant forall j :: 1 <= j < i ==> column[j] == kids[j].(x := 2 * Gap, y := StackTop(kids, j))
      invariant forall j :: i <= j < n ==> column[j] == kids[j]
    {
      var child := column[i];
      height := height + Gap;
      column := column[i := child.(x := Gap + Gap, y := height)];
      if Gap + Gap + child.extent.width > width {
        width := Gap + Gap + child.extent.width;
      }
      height := height + child.extent.height;
      i := i + 1;
    }
  }

  /** What the horizontal pass assembles is HorizontalChildren. */
  lemma HorizontalPassAgrees(kids: seq<Placed>, expanded: bool, placed: seq<Placed>)
    requires |kids| > 0 && |placed| == |kids|
    requires ShowsBranches(kids, expanded) ==> (forall j :: 1 <= j < |kids| ==>
      placed[j] == kids[j].(x := RowStart(kids, j) + Excess(kids), y := 4 * Gap + kids[0].extent.height))
    requires ShowsBranches(kids, expanded) ==> placed[0] == HorizontalChildren(kids, expanded)[0]
    requires !ShowsBranches(kids, expanded) ==> placed == kids[0 := kids[0].(x := Gap, y := Gap)]
    ensures placed == HorizontalChildren(kids, expanded)
  {
    var r := HorizontalChildren(kids, expanded);
    forall j | 0 <= j < |kids|
      ensures placed[j] == r[j]
    {
    }
  }

  /** What the vertical pass assembles is VerticalChildren. */
  lemma VerticalPassAgrees(kids: seq<Placed>, expanded: bool, placed: seq<Placed>)
    requires |kids| > 0 && |placed| == |kids|
    requires ShowsBranches(kids, expanded) ==> (forall j :: 1 <= j < |kids| ==>
      placed[j] == kids[j].(x := 2 * Gap, y := StackTop(kids, j)))
    requires placed[0] == kids[0].(x := Gap, y := Gap)
    requires !ShowsBranches(kids, expanded) ==> placed == kids[0 := kids[0].(x := Gap, y := Gap)]
    ensures placed == VerticalChildren(kids, expanded)
  {
  }

  // ----------------------------------------------------------- display steps

  /** The node's rectangle, highlighted when asked, the fill style saved and restored. */
  method DrawFrame(ctx: Surface.Canvas, highlight: bool, x: int, y: int, w: int, h: int)
    modifies ctx
    ensures ctx.fillStyle == old(ctx.fillStyle)
    ensures ctx.log == old(ctx.log) + Frame(highlight, x, y, w, h, old(ctx.fillStyle))
  {
    if highlight {
      var saved := ctx.fillStyle;
      ctx.SetFillStyle(Highlight);
      ctx.FillRect(x, y, w, h);
      ctx.SetFillStyle(saved);
    }
    ctx.StrokeRect(x, y, w, h);
  }

  /** The loop of displayHorizontal that traces the connectors, with its early
      exit for a single branch. */
  method TraceHorizontalConnectors(ctx: Surface.Canvas, kids: seq<Placed>, xxx: int, x: int, y: int)
    requires |kids| > 0
    modifies ctx
    ensures ctx.fillStyle == old(ctx.fillStyle)
    ensures ctx.log == old(ctx.log) + HorizontalConnectors(kids, xxx, x, y)
  {
    var n := |kids|;
    var yyy := Gap + kids[0].extent.height + Gap;
    ghost var top := y + yyy + Gap;
    ghost var head := [MoveTo(x + xxx, y + yyy), LineTo(x + xxx, top),
      MoveTo(x + Centre(kids[if n > 1 then 1 else 0]), top), LineTo(x + Centre(kids[n - 1]), top)];
    var i := 1;
    while i < n
      invariant 1 <= i <= n && (n == 2 ==> i == 1)
      invariant ctx.fillStyle == old(ctx.fillStyle)
      invariant i == 1 ==> ctx.log == old(ctx.log)
      invariant i > 1 ==> ctx.log == old(ctx.log) + head + Drops(kids, i, x, top)
    {
      var child := kids[i];
      if i == 1 {
        if n == 2 {
          DrawLine(ctx, x + xxx, y + yyy, x + xxx, y + yyy + 2 * Gap);
          break;
        }
        DrawLine(ctx, x + xxx, y + yyy, x + xxx, y + yyy + Gap);
        var last := kids[n - 1].x + kids[n - 1].extent.vertBaseline;
        DrawLine(ctx, x + child.x + child.extent.vertBaseline, y + yyy + Gap, x + last, y + yyy + Gap);
        assert ctx.log == old(ctx.log) + head + Drops(kids, i, x, top);
      }
      DrawLine(ctx, x + child.x + child.extent.vertBaseline, y + yyy + Gap, x + child.x + child.extent.vertBaseline, y + yyy + 2 * Gap);
      i := i + 1;
    }
    if n > 2 {
      assert HorizontalConnectors(kids, xxx, x, y) == head + Drops(kids, n, x, top);
    }
  }

  /** The loop of displayVertical that traces the rail and the ticks. */
  method TraceVerticalConnectors(ctx: Surface.Canvas, kids: seq<Placed>, x: int, y: int)
    requires |kids| > 0
    modifies ctx
    ensures ctx.fillStyle == old(ctx.fillStyle)
    ensures ctx.log == old(ctx.log) + VerticalConnectors(kids, x, y)
  {
    var n := |kids|;
    ghost var rail := [MoveTo(x + Gap, y + kids[if n > 1 then 1 else 0].y - Gap), LineTo(x + Gap, y + Level(kids[n - 1]))];
    var i := 1;
    while i < n
      invariant 1 <= i <= n
      invariant ctx.fillStyle == old(ctx.fillStyle)
      invariant i == 1 ==> ctx.log == old(ctx.log)
      invariant i > 1 ==> ctx.log == old(ctx.log) + rail + Ticks(kids, i, x, y)
    {
      var child := kids[i];
      if i == 1 {
        var last := kids[n - 1];
        DrawLine(ctx, x + Gap, y + child.y - Gap, x + Gap, y + last.y + last.extent.horzBaseline);
        assert ctx.log == old(ctx.log) + rail + Ticks(kids, i, x, y);
      }
      DrawLine(ctx, x + Gap, y + child.y + child.extent.horzBaseline, x + Gap + Gap, y + child.y + child.extent.horzBaseline);
      i := i + 1;
    }
  }

  /** One straight line of the path: a moveTo followed by a lineTo. */
  method DrawLine(ctx: Surface.Canvas, x0: int, y0: int, x1: int, y1: int)
    modifies ctx
    ensures ctx.fillStyle == old(ctx.fillStyle)
    ensures ctx.log == old(ctx.log) + [MoveTo(x0, y0), LineTo(x1, y1)]
  {
    ctx.MoveTo(x0, y0);
    ctx.LineTo(x1, y1);
  }

  /** The last loop of both display methods: each branch displays itself at its offset. */
  method ShowBranches(ctx: Surface.Canvas, kids: seq<Placed>, x: int, y: int)
    requires |kids| > 0
    modifies ctx
    ensures ctx.fillStyle == old(ctx.fillStyle)
    ensures ctx.log == old(ctx.log) + BranchShows(kids, |kids|, x, y)
  {
    var i := 1;
    while i < |kids|
      invariant 1 <= i <= |kids|
      invariant ctx.fillStyle == old(ctx.fillStyle)
      invariant ctx.log == old(ctx.log) + BranchShows(kids, i, x, y)
    {
      var child := kids[i];
      ctx.Show(i, x + child.x, y + child.y);
      i := i + 1;
    }
  }

  /** Regrouping of the pieces a display method issues one after another. */
  lemma PaintAssembles(start: seq<Cmd>, frame: seq<Cmd>, show0: Cmd, path: seq<Cmd>, shows: seq<Cmd>)
    ensures start + frame + [show0] + [BeginPath] + path + [Stroke] + shows ==
      start + (frame + [show0] + ([BeginPath] + path + [Stroke] + shows))
  {
  }

  // ------------------------------------------------- layout and display together

  /** The frame displayHorizontal draws around the content sits Gap to the
      left of it, or Gap + 1 in one case: the branch row sets the node's width,
      that width is even and the content's width is odd. Both offsets are
      rounded halves, and there they round in opposite directions. */
  lemma HorizontalFrameInset(kids: seq<Placed>, expanded: bool)
    requires |kids| > 0
    ensures var r, e, cw := HorizontalChildren(kids, expanded), HorizontalExtent(kids, expanded), kids[0].extent.width;
      var inset := r[0].x - (e.vertBaseline - Half(cw) - Gap);
      (inset == Gap || inset == Gap + 1) &&
      (inset == Gap + 1 <==>
        ShowsBranches(kids, expanded) && RowAtLeastAsWide(kids) && RowWidth(kids) % 2 == 0 && cw % 2 == 1)
  {
    var r, e, cw := HorizontalChildren(kids, expanded), HorizontalExtent(kids, expanded), kids[0].extent.width;
    if ShowsBranches(kids, expanded) && RowAtLeastAsWide(kids) {
      var w := RowWidth(kids);
      assert r[0].x == Half(w - cw) && e.vertBaseline == Half(w);
      HalvesDiffer(w, cw);
    } else {
      assert r[0].x == Gap && e.vertBaseline == Half(cw + 2 * Gap);
      HalvesDiffer(cw + 2 * Gap, cw);
    }
  }

  /** Rounding a difference to half and rounding its two terms disagree by
      one exactly when the first term is even and the second odd. */
  lemma HalvesDiffer(w: int, c: int)
    ensures Half(w - c) + Half(c) - Half(w) == (if w % 2 == 0 && c % 2 == 1 then 1 else 0)
  {
  }

  /** After the horizontal pass of an expanded node with branches, every
      connector the display strokes into a branch ends on the top edge of that
      branch, inside its width: the single segment when there is one branch,
      each drop when there are several. */
  lemma HorizontalDropsMeetBranches(kids: seq<Placed>, x: int, y: int, prior: string)
    requires |kids| > 1 && AllSound(kids)
    ensures var r, e := HorizontalChildren(kids, true), HorizontalExtent(kids, true);
      var s := Segments(HorizontalPaint(r, true, e.vertBaseline, x, y, prior));
      (|kids| == 2 ==>
        |s| == 1 && s[0].y1 == y + r[1].y && x + r[1].x <= s[0].x1 <= x + r[1].x + r[1].extent.width) &&
      (|kids| > 2 ==>
        |s| == |kids| + 1 &&
        forall j :: 1 <= j < |kids| ==>
          s[j + 1].y1 == y + r[j].y && x + r[j].x <= s[j + 1].x1 <= x + r[j].x + r[j].extent.width)
  {
    var r, e := HorizontalChildren(kids, true), HorizontalExtent(kids, true);
    HorizontalTopology(r, true, e.vertBaseline, x, y, prior);
    assert r[0].extent == kids[0].extent;
    forall j | 1 <= j < |kids|
      ensures Sound(r[j].extent) && r[j].y == 4 * Gap + kids[0].extent.height
    {
      assert r[j].extent == kids[j].extent;
    }
    if |kids| == 2 {
      var fw, w1 := Framed(kids), kids[1].extent.width;
      assert RowWidth(kids) == w1;
      if fw <= w1 {
        assert r[1].x == 0 && e.vertBaseline == Half(w1);
      } else {
        assert r[1].x == Half(fw - w1) && e.vertBaseline == Half(fw);
      }
    }
  }

  /** After the vertical pass of an expanded node with branches, the rail
      starts on the bottom edge of the frame and ends at the last branch's
      baseline, and every tick ends on the left edge of its branch, within the
      branch's height. */
  lemma VerticalTicksMeetBranches(kids: seq<Placed>, x: int, y: int, prior: string)
    requires |kids| > 1 && AllSound(kids)
    ensures var r := VerticalChildren(kids, true);
      var s := Segments(VerticalPaint(r, true, x, y, prior));
      var n := |kids|;
      |s| == n &&
      s[0].y0 == y + Gap + kids[0].extent.height + Gap &&
      s[0].y1 == y + r[n - 1].y + r[n - 1].extent.horzBaseline &&
      forall j :: 1 <= j < n ==>
        s[j].x1 == x + r[j].x && y + r[j].y <= s[j].y1 <= y + r[j].y + r[j].extent.height
  {
    var r := VerticalChildren(kids, true);
    VerticalTopology(r, true, x, y, prior);
    assert r[1].y == StackTop(kids, 1);
    forall j | 1 <= j < |kids|
      ensures Sound(r[j].extent)
    {
      assert r[j].extent == kids[j].extent;
    }
  }
}
