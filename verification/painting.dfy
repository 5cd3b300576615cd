/** What a tree node paints, as the sequence of commands it issues to the
    drawing surface, and the facts about that sequence: which fill style each
    filled rectangle is painted in, which line segments the path holds, which
    children are displayed and where. */
module Painting {
  import opened Layout

  /** The fill style of the collapse highlight. */
  const Highlight: string := "orange"

  /** One command issued to the surface. `Show(i, x, y)` is child i's own
      display call at absolute offset (x, y). */
  datatype Cmd =
    | SetFill(style: string)
    | FillRect(x: int, y: int, w: int, h: int)
    | StrokeRect(x: int, y: int, w: int, h: int)
    | BeginPath
    | MoveTo(x: int, y: int)
    | LineTo(x: int, y: int)
    | Stroke
    | Show(index: nat, x: int, y: int)

  /** A straight line of the stroked path, from (x0, y0) to (x1, y1). */
  datatype Segment = Segment(x0: int, y0: int, x1: int, y1: int)

  // ------------------------------------------------------------ the commands

  /** The node's rectangle, filled with the highlight first when the node hides
      its branches; the fill style is put back to `prior` right after. */
  function Frame(highlight: bool, x: int, y: int, w: int, h: int, prior: string): seq<Cmd>
  {
    (if highlight then [SetFill(Highlight), FillRect(x, y, w, h), SetFill(prior)] else []) +
    [StrokeRect(x, y, w, h)]
  }

  /** A node hides branches when it is collapsed and has some. */
  predicate Hides(kids: seq<Placed>, expanded: bool)
  {
    !expanded && |kids| > 1
  }

  /** Child j's display call for a node painted at (x, y). */
  function ShowChild(kids: seq<Placed>, j: nat, x: int, y: int): Cmd
    requires j < |kids|
  {
    Show(j, x + kids[j].x, y + kids[j].y)
  }

  /** Display calls of branches 1 .. i-1, in order. */
  function BranchShows(kids: seq<Placed>, i: nat, x: int, y: int): seq<Cmd>
    requires 1 <= i <= |kids|
  {
    if i == 1 then [] else BranchShows(kids, i - 1, x, y) + [ShowChild(kids, i - 1, x, y)]
  }

  /** Horizontal centre of a child in its parent. */
  function Centre(p: Placed): int
  {
    p.x + p.extent.vertBaseline
  }

  /** Height of a child's horizontal baseline in its parent. */
  function Level(p: Placed): int
  {
    p.y + p.extent.horzBaseline
  }

  /** The drops from the bar at height `top` into branches 1 .. i-1. */
  function Drops(kids: seq<Placed>, i: nat, x: int, top: int): seq<Cmd>
    requires 1 <= i <= |kids|
  {
    if i == 1 then []
    else Drops(kids, i - 1, x, top) + [MoveTo(x + Centre(kids[i - 1]), top), LineTo(x + Centre(kids[i - 1]), top + Gap)]
  }

  /** Horizontal connectors of a node at (x, y) whose vertical baseline is vb. */
  function HorizontalConnectors(kids: seq<Placed>, vb: int, x: int, y: int): seq<Cmd>
    requires |kids| > 0
  {
    var n := |kids|;
    var bottom := y + Gap + kids[0].extent.height + Gap;
    if n == 1 then []
    else if n == 2 then [MoveTo(x + vb, bottom), LineTo(x + vb, bottom + 2 * Gap)]
    else
      [MoveTo(x + vb, bottom), LineTo(x + vb, bottom + Gap),
       MoveTo(x + Centre(kids[1]), bottom + Gap), LineTo(x + Centre(kids[n - 1]), bottom + Gap)] +
      Drops(kids, n, x, bottom + Gap)
  }

  /** What follows the frame and the content's display: nothing for a
      collapsed node, else the stroked path and then the branches' displays. */
  function Rest(kids: seq<Placed>, expanded: bool, path: seq<Cmd>, x: int, y: int): seq<Cmd>
    requires |kids| > 0
  {
    if expanded then [BeginPath] + path + [Stroke] + BranchShows(kids, |kids|, x, y) else []
  }

  /** The frame displayHorizontal draws: around the content, centred on the
      node's vertical baseline vb. */
  function HorizontalFrame(kids: seq<Placed>, expanded: bool, vb: int, x: int, y: int, prior: string): seq<Cmd>
    requires |kids| > 0
  {
    var c := kids[0].extent;
    Frame(Hides(kids, expanded), x + vb - Half(c.width) - Gap, y, c.width + 2 * Gap, Gap + c.height + Gap, prior)
  }

  /** Everything displayHorizontal issues for a node at (x, y). */
  function HorizontalPaint(kids: seq<Placed>, expanded: bool, vb: int, x: int, y: int, prior: string): seq<Cmd>
    requires |kids| > 0
  {
    HorizontalFrame(kids, expanded, vb, x, y, prior) + [ShowChild(kids, 0, x, y)] +
    Rest(kids, expanded, HorizontalConnectors(kids, vb, x, y), x, y)
  }

  /** The ticks from the rail into branches 1 .. i-1. */
  function Ticks(kids: seq<Placed>, i: nat, x: int, y: int): seq<Cmd>
    requires 1 <= i <= |kids|
  {
    if i == 1 then []
    else Ticks(kids, i - 1, x, y) + [MoveTo(x + Gap, y + Level(kids[i - 1])), LineTo(x + 2 * Gap, y + Level(kids[i - 1]))]
  }

  /** Vertical connectors of a node at (x, y): the rail, then one tick per branch. */
  function VerticalConnectors(kids: seq<Placed>, x: int, y: int): seq<Cmd>
    requires |kids| > 0
  {
    var n := |kids|;
    if n == 1 then []
    else [MoveTo(x + Gap, y + kids[1].y - Gap), LineTo(x + Gap, y + Level(kids[n - 1]))] + Ticks(kids, n, x, y)
  }

  /** The frame displayVertical draws: around the content at the node's corner. */
  function VerticalFrame(kids: seq<Placed>, expanded: bool, x: int, y: int, prior: string): seq<Cmd>
    requires |kids| > 0
  {
    var c := kids[0].extent;
    Frame(Hides(kids, expanded), x, y, Gap + c.width + Gap, Gap + c.height + Gap, prior)
  }

  /** Everything displayVertical issues for a node at (x, y). */
  function VerticalPaint(kids: seq<Placed>, expanded: bool, x: int, y: int, prior: string): seq<Cmd>
    requires |kids| > 0
  {
    VerticalFrame(kids, expanded, x, y, prior) + [ShowChild(kids, 0, x, y)] +
    Rest(kids, expanded, VerticalConnectors(kids, x, y), x, y)
  }

  // ---------------------------------------------------- reading the commands

  /** The fill style in force after the commands, starting from `style`. */
  function FinalStyle(style: string, cmds: seq<Cmd>): string
    decreases |cmds|
  {
    if cmds == [] then style
    else FinalStyle(if cmds[0].SetFill? then cmds[0].style else style, cmds[1..])
  }

  /** The fill style in force at each filled rectangle, in order. */
  function FillsUnder(style: string, cmds: seq<Cmd>): seq<string>
    decreases |cmds|
  {
    if cmds == [] then []
    else if cmds[0].SetFill? then FillsUnder(cmds[0].style, cmds[1..])
    else if cmds[0].FillRect? then [style] + FillsUnder(style, cmds[1..])
    else FillsUnder(style, cmds[1..])
  }

  /** The stroked rectangles, in order. */
  function Strokes(cmds: seq<Cmd>): seq<Cmd>
  {
    if cmds == [] then [] else (if cmds[0].StrokeRect? then [cmds[0]] else []) + Strokes(cmds[1..])
  }

  /** The children's display calls, in order. */
  function Shown(cmds: seq<Cmd>): seq<Cmd>
  {
    if cmds == [] then [] else (if cmds[0].Show? then [cmds[0]] else []) + Shown(cmds[1..])
  }

  /** The line segments of the path: each moveTo followed by a lineTo. */
  function Segments(cmds: seq<Cmd>): seq<Segment>
    decreases |cmds|
  {
    if |cmds| < 2 then []
    else if cmds[0].MoveTo? && cmds[1].LineTo? then
      [Segment(cmds[0].x, cmds[0].y, cmds[1].x, cmds[1].y)] + Segments(cmds[2..])
    else Segments(cmds[1..])
  }

  // ------------------------------------------------- reading concatenations

  lemma {:induction false} FinalStyleAppend(style: string, a: seq<Cmd>, b: seq<Cmd>)
    ensures FinalStyle(style, a + b) == FinalStyle(FinalStyle(style, a), b)
    ensures FillsUnder(style, a + b) == FillsUnder(style, a) + FillsUnder(FinalStyle(style, a), b)
    decreases |a|
  {
    if a != [] {
      assert (a + b)[1..] == a[1..] + b;
      FinalStyleAppend(if a[0].SetFill? then a[0].style else style, a[1..], b);
    } else {
      assert a + b == b;
    }
  }

  lemma {:induction false} FilterAppend(a: seq<Cmd>, b: seq<Cmd>)
    ensures Strokes(a + b) == Strokes(a) + Strokes(b)
    ensures Shown(a + b) == Shown(a) + Shown(b)
    decreases |a|
  {
    if a != [] {
      assert (a + b)[1..] == a[1..] + b;
      FilterAppend(a[1..], b);
    } else {
      assert a + b == b;
    }
  }

  /** A path ends cleanly when it does not end in a dangling moveTo. */
  predicate Closed(cmds: seq<Cmd>)
  {
    cmds == [] || !cmds[|cmds| - 1].MoveTo?
  }

  lemma {:induction false} SegmentsAppend(a: seq<Cmd>, b: seq<Cmd>)
    requires Closed(a)
    ensures Segments(a + b) == Segments(a) + Segments(b)
    decreases |a|
  {
    if a == [] {
      assert a + b == b;
    } else if |a| == 1 {
      if |a + b| >= 2 {
        assert (a + b)[1..] == b;
      }
    } else if a[0].MoveTo? && a[1].LineTo? {
      assert (a + b)[2..] == a[2..] + b;
      SegmentsAppend(a[2..], b);
    } else {
      assert (a + b)[1..] == a[1..] + b;
      SegmentsAppend(a[1..], b);
    }
  }

  /** Commands that only build the path. */
  predicate PathOnly(cmds: seq<Cmd>)
  {
    forall k :: 0 <= k < |cmds| ==> cmds[k].MoveTo? || cmds[k].LineTo?
  }

  /** Commands that only display children. */
  predicate ShowsOnly(cmds: seq<Cmd>)
  {
    forall k :: 0 <= k < |cmds| ==> cmds[k].Show?
  }

  /** Commands that take no part in the path. */
  predicate NoPath(cmds: seq<Cmd>)
  {
    forall k :: 0 <= k < |cmds| ==> !cmds[k].MoveTo? && !cmds[k].LineTo?
  }

  lemma {:induction false} PathOnlyIsInert(style: string, cmds: seq<Cmd>)
    requires PathOnly(cmds)
    ensures FinalStyle(style, cmds) == style && FillsUnder(style, cmds) == []
    ensures Strokes(cmds) == [] && Shown(cmds) == []
    decreases |cmds|
  {
    if cmds != [] {
      PathOnlyIsInert(style, cmds[1..]);
    }
  }

  lemma {:induction false} ShowsOnlyAreShown(style: string, cmds: seq<Cmd>)
    requires ShowsOnly(cmds)
    ensures FinalStyle(style, cmds) == style && FillsUnder(style, cmds) == []
    ensures Strokes(cmds) == [] && Shown(cmds) == cmds && NoPath(cmds)
    decreases |cmds|
  {
    if cmds != [] {
      ShowsOnlyAreShown(style, cmds[1..]);
    }
  }

  lemma {:induction false} NoPathNoSegments(a: seq<Cmd>, b: seq<Cmd>)
    requires NoPath(a)
    ensures Segments(a + b) == Segments(b)
    decreases |a|
  {
    if a == [] {
      assert a + b == b;
    } else {
      assert (a + b)[1..] == a[1..] + b;
      NoPathNoSegments(a[1..], b);
    }
  }

  // ------------------------------------------------------ the pieces, read

  /** Branches 1 .. i-1 are displayed, in order, each at its own offset. */
  lemma {:induction false} BranchShowsInOrder(kids: seq<Placed>, i: nat, x: int, y: int)
    requires 1 <= i <= |kids|
    ensures ShowsOnly(BranchShows(kids, i, x, y))
    ensures |BranchShows(kids, i, x, y)| == i - 1
    ensures forall j :: 1 <= j < i ==> BranchShows(kids, i, x, y)[j - 1] == ShowChild(kids, j, x, y)
  {
    if i > 1 {
      BranchShowsInOrder(kids, i - 1, x, y);
    }
  }

  lemma {:induction false} DropSegments(kids: seq<Placed>, i: nat, x: int, top: int)
    requires 1 <= i <= |kids|
    ensures PathOnly(Drops(kids, i, x, top)) && Closed(Drops(kids, i, x, top))
    ensures |Segments(Drops(kids, i, x, top))| == i - 1
    ensures forall j :: 1 <= j < i ==>
      Segments(Drops(kids, i, x, top))[j - 1] == Segment(x + Centre(kids[j]), top, x + Centre(kids[j]), top + Gap)
  {
    if i > 1 {
      DropSegments(kids, i - 1, x, top);
      var pair := [MoveTo(x + Centre(kids[i - 1]), top), LineTo(x + Centre(kids[i - 1]), top + Gap)];
      SegmentsAppend(Drops(kids, i - 1, x, top), pair);
    }
  }

  lemma {:induction false} TickSegments(kids: seq<Placed>, i: nat, x: int, y: int)
    requires 1 <= i <= |kids|
    ensures PathOnly(Ticks(kids, i, x, y)) && Closed(Ticks(kids, i, x, y))
    ensures |Segments(Ticks(kids, i, x, y))| == i - 1
    ensures forall j :: 1 <= j < i ==>
      Segments(Ticks(kids, i, x, y))[j - 1] == Segment(x + Gap, y + Level(kids[j]), x + 2 * Gap, y + Level(kids[j]))
  {
    if i > 1 {
      TickSegments(kids, i - 1, x, y);
      var pair := [MoveTo(x + Gap, y + Level(kids[i - 1])), LineTo(x + 2 * Gap, y + Level(kids[i - 1]))];
      SegmentsAppend(Ticks(kids, i - 1, x, y), pair);
    }
  }

  lemma HorizontalConnectorsArePath(kids: seq<Placed>, vb: int, x: int, y: int)
    requires |kids| > 0
    ensures PathOnly(HorizontalConnectors(kids, vb, x, y)) && Closed(HorizontalConnectors(kids, vb, x, y))
  {
    var n := |kids|;
    if n > 2 {
      DropSegments(kids, n, x, y + Gap + kids[0].extent.height + Gap + Gap);
    }
  }

  lemma VerticalConnectorsArePath(kids: seq<Placed>, x: int, y: int)
    requires |kids| > 0
    ensures PathOnly(VerticalConnectors(kids, x, y)) && Closed(VerticalConnectors(kids, x, y))
  {
    if |kids| > 1 {
      TickSegments(kids, |kids|, x, y);
    }
  }

  /** Reading one command ahead of the rest. */
  lemma ReadOne(style: string, c: Cmd, rest: seq<Cmd>)
    ensures FinalStyle(style, [c] + rest) == FinalStyle(if c.SetFill? then c.style else style, rest)
    ensures FillsUnder(style, [c] + rest) ==
      (if c.SetFill? then FillsUnder(c.style, rest)
       else if c.FillRect? then [style] + FillsUnder(style, rest)
       else FillsUnder(style, rest))
    ensures Strokes([c] + rest) == (if c.StrokeRect? then [c] else []) + Strokes(rest)
    ensures Shown([c] + rest) == (if c.Show? then [c] else []) + Shown(rest)
  {
    assert ([c] + rest)[1..] == rest;
  }

  /** The frame: one stroked rectangle always; one filled rectangle, in the
      highlight style, exactly when asked for; the fill style back to `prior`
      afterwards; no path and no display call. */
  lemma FrameReading(highlight: bool, x: int, y: int, w: int, h: int, prior: string)
    ensures var f := Frame(highlight, x, y, w, h, prior);
      NoPath(f) && Shown(f) == [] &&
      FinalStyle(prior, f) == prior &&
      FillsUnder(prior, f) == (if highlight then [Highlight] else []) &&
      Strokes(f) == [StrokeRect(x, y, w, h)]
  {
    var f := Frame(highlight, x, y, w, h, prior);
    var s3 := [StrokeRect(x, y, w, h)];
    ReadOne(prior, StrokeRect(x, y, w, h), []);
    ReadOne(Highlight, StrokeRect(x, y, w, h), []);
    assert [StrokeRect(x, y, w, h)] + [] == s3;
    if highlight {
      var s2 := [SetFill(prior)] + s3;
      var s1 := [FillRect(x, y, w, h)] + s2;
      assert f == [SetFill(Highlight)] + s1;
      ReadOne(Highlight, SetFill(prior), s3);
      ReadOne(Highlight, FillRect(x, y, w, h), s2);
      ReadOne(prior, SetFill(Highlight), s1);
    } else {
      assert f == s3;
    }
  }

  /** The frame followed by the content's display and the rest. */
  lemma HeadReading(frame: seq<Cmd>, show0: Cmd, rest: seq<Cmd>, style: string)
    requires NoPath(frame) && show0.Show?
    ensures var p := frame + [show0] + rest;
      FinalStyle(style, p) == FinalStyle(FinalStyle(style, frame), rest) &&
      FillsUnder(style, p) == FillsUnder(style, frame) + FillsUnder(FinalStyle(style, frame), rest) &&
      Strokes(p) == Strokes(frame) + Strokes(rest) &&
      Shown(p) == Shown(frame) + [show0] + Shown(rest) &&
      Segments(p) == Segments(rest)
  {
    var p := frame + [show0] + rest;
    assert p == frame + ([show0] + rest);
    FinalStyleAppend(style, frame, [show0] + rest);
    FilterAppend(frame, [show0] + rest);
    assert ([show0] + rest)[1..] == rest;
    assert NoPath(frame + [show0]);
    NoPathNoSegments(frame + [show0], rest);
  }

  /** The stroked path followed by display calls. */
  lemma {:induction false} PathThenShowsStyle(path: seq<Cmd>, shows: seq<Cmd>, style: string)
    requires PathOnly(path) && ShowsOnly(shows)
    ensures FinalStyle(style, [BeginPath] + path + [Stroke] + shows) == style
    ensures FillsUnder(style, [BeginPath] + path + [Stroke] + shows) == []
  {
    var tail := [Stroke] + shows;
    assert [BeginPath] + path + [Stroke] + shows == [BeginPath] + (path + tail);
    assert ([BeginPath] + (path + tail))[1..] == path + tail;
    assert tail[1..] == shows;
    ShowsOnlyAreShown(style, shows);
    PathOnlyIsInert(style, path);
    FinalStyleAppend(style, path, tail);
  }

  lemma {:induction false} PathThenShowsFilters(path: seq<Cmd>, shows: seq<Cmd>)
    requires PathOnly(path) && ShowsOnly(shows)
    ensures Strokes([BeginPath] + path + [Stroke] + shows) == []
    ensures Shown([BeginPath] + path + [Stroke] + shows) == shows
  {
    var tail := [Stroke] + shows;
    assert [BeginPath] + path + [Stroke] + shows == [BeginPath] + (path + tail);
    assert ([BeginPath] + (path + tail))[1..] == path + tail;
    assert tail[1..] == shows;
    ShowsOnlyAreShown("", shows);
    PathOnlyIsInert("", path);
    FilterAppend(path, tail);
  }

  lemma {:induction false} PathThenShowsSegments(path: seq<Cmd>, shows: seq<Cmd>)
    requires PathOnly(path) && Closed(path) && ShowsOnly(shows)
    ensures Segments([BeginPath] + path + [Stroke] + shows) == Segments(path)
  {
    var tail := [Stroke] + shows;
    assert [BeginPath] + path + [Stroke] + shows == [BeginPath] + (path + tail);
    ShowsOnlyAreShown("", shows);
    assert NoPath(tail);
    NoPathNoSegments([BeginPath], path + tail);
    SegmentsAppend(path, tail);
    NoPathNoSegments(tail, []);
    assert tail + [] == tail;
  }

  /** What follows the content's display: for an expanded node the path and the
      branches' displays, for a collapsed one nothing. */
  lemma RestReading(kids: seq<Placed>, expanded: bool, path: seq<Cmd>, x: int, y: int, style: string)
    requires |kids| > 0 && PathOnly(path) && Closed(path)
    ensures var t := Rest(kids, expanded, path, x, y);
      FinalStyle(style, t) == style && FillsUnder(style, t) == [] && Strokes(t) == [] &&
      Shown(t) == (if expanded then BranchShows(kids, |kids|, x, y) else []) &&
      Segments(t) == (if expanded then Segments(path) else [])
  {
    if expanded {
      var shows := BranchShows(kids, |kids|, x, y);
      BranchShowsInOrder(kids, |kids|, x, y);
      PathThenShowsStyle(path, shows, style);
      PathThenShowsFilters(path, shows);
      PathThenShowsSegments(path, shows);
    }
  }

  // ------------------------------------------------------- the paint, read

  /** Any paint of the shape both orientations issue: frame, content display,
      then (when expanded) the path and the branch displays. */
  lemma PaintReading(kids: seq<Placed>, expanded: bool, path: seq<Cmd>, fx: int, fy: int, fw: int, fh: int,
                     x: int, y: int, prior: string)
    requires |kids| > 0 && PathOnly(path) && Closed(path)
    ensures var p := Frame(Hides(kids, expanded), fx, fy, fw, fh, prior) + [ShowChild(kids, 0, x, y)] +
                     Rest(kids, expanded, path, x, y);
      FinalStyle(prior, p) == prior &&
      FillsUnder(prior, p) == (if Hides(kids, expanded) then [Highlight] else []) &&
      Strokes(p) == [StrokeRect(fx, fy, fw, fh)] &&
      Shown(p) == [ShowChild(kids, 0, x, y)] + (if expanded then BranchShows(kids, |kids|, x, y) else []) &&
      Segments(p) == (if expanded then Segments(path) else [])
  {
    var frame := Frame(Hides(kids, expanded), fx, fy, fw, fh, prior);
    FrameReading(Hides(kids, expanded), fx, fy, fw, fh, prior);
    RestReading(kids, expanded, path, x, y, prior);
    HeadReading(frame, ShowChild(kids, 0, x, y), Rest(kids, expanded, path, x, y), prior);
  }

  /** A node's display calls, read off the paint: the content always; the
      branches, in order, each at its own offset, exactly when expanded. */
  lemma ShownInOrder(kids: seq<Placed>, expanded: bool, x: int, y: int, s: seq<Cmd>)
    requires |kids| > 0
    requires s == [ShowChild(kids, 0, x, y)] + (if expanded then BranchShows(kids, |kids|, x, y) else [])
    ensures |s| == (if expanded then |kids| else 1)
    ensures forall j :: 0 <= j < |s| ==> s[j] == Show(j, x + kids[j].x, y + kids[j].y)
  {
    BranchShowsInOrder(kids, |kids|, x, y);
    forall j | 0 <= j < |s|
      ensures s[j] == Show(j, x + kids[j].x, y + kids[j].y)
    {
      if j > 0 {
        assert expanded;
        assert s[j] == BranchShows(kids, |kids|, x, y)[j - 1];
      }
      assert s[j] == ShowChild(kids, j, x, y);
    }
  }


  /** Horizontal fill and stroke: one filled rectangle, in the highlight style,
      exactly when the node is collapsed and has branches; the fill style back
      to what it was; exactly one stroked rectangle, around the content. */
  lemma HorizontalFill(kids: seq<Placed>, expanded: bool, vb: int, x: int, y: int, prior: string)
    requires |kids| > 0
    ensures var p, c := HorizontalPaint(kids, expanded, vb, x, y, prior), kids[0].extent;
      FillsUnder(prior, p) == (if !expanded && |kids| > 1 then [Highlight] else []) &&
      FinalStyle(prior, p) == prior &&
      Strokes(p) == [StrokeRect(x + vb - Half(c.width) - Gap, y, c.width + 2 * Gap, 2 * Gap + c.height)]
  {
    var c := kids[0].extent;
    HorizontalConnectorsArePath(kids, vb, x, y);
    PaintReading(kids, expanded, HorizontalConnectors(kids, vb, x, y), x + vb - Half(c.width) - Gap, y,
      c.width + 2 * Gap, Gap + c.height + Gap, x, y, prior);
  }

  /** Horizontal display calls: the content always; the branches, in order,
      each at its own offset, exactly when the node is expanded. */
  lemma HorizontalDisplays(kids: seq<Placed>, expanded: bool, vb: int, x: int, y: int, prior: string)
    requires |kids| > 0
    ensures var s := Shown(HorizontalPaint(kids, expanded, vb, x, y, prior));
      |s| == (if expanded then |kids| else 1) &&
      forall j :: 0 <= j < |s| ==> s[j] == Show(j, x + kids[j].x, y + kids[j].y)
  {
    var c := kids[0].extent;
    HorizontalConnectorsArePath(kids, vb, x, y);
    PaintReading(kids, expanded, HorizontalConnectors(kids, vb, x, y), x + vb - Half(c.width) - Gap, y,
      c.width + 2 * Gap, Gap + c.height + Gap, x, y, prior);
    ShownInOrder(kids, expanded, x, y, Shown(HorizontalPaint(kids, expanded, vb, x, y, prior)));
  }

  /** The horizontal connectors, as segments. */
  lemma HorizontalConnectorSegments(kids: seq<Placed>, vb: int, x: int, y: int)
    requires |kids| > 0
    ensures var s, n, bottom := Segments(HorizontalConnectors(kids, vb, x, y)), |kids|, y + 2 * Gap + kids[0].extent.height;
      (n == 1 ==> s == []) &&
      (n == 2 ==> s == [Segment(x + vb, bottom, x + vb, bottom + 2 * Gap)]) &&
      (n > 2 ==>
        |s| == n + 1 &&
        s[0] == Segment(x + vb, bottom, x + vb, bottom + Gap) &&
        s[1] == Segment(x + Centre(kids[1]), bottom + Gap, x + Centre(kids[n - 1]), bottom + Gap) &&
        forall j :: 1 <= j < n ==>
          s[j + 1] == Segment(x + Centre(kids[j]), bottom + Gap, x + Centre(kids[j]), bottom + 2 * Gap))
  {
    var n := |kids|;
    var bottom := y + 2 * Gap + kids[0].extent.height;
    if n == 2 {
      var pair := [MoveTo(x + vb, bottom), LineTo(x + vb, bottom + 2 * Gap)];
      assert HorizontalConnectors(kids, vb, x, y) == pair;
      assert pair[2..] == [];
    }
    if n > 2 {
      var head := [MoveTo(x + vb, bottom), LineTo(x + vb, bottom + Gap),
                   MoveTo(x + Centre(kids[1]), bottom + Gap), LineTo(x + Centre(kids[n - 1]), bottom + Gap)];
      var drops := Drops(kids, n, x, bottom + Gap);
      assert HorizontalConnectors(kids, vb, x, y) == head + drops;
      assert head[2..][2..] == [];
      SegmentsAppend(head, drops);
      DropSegments(kids, n, x, bottom + Gap);
      var s := Segments(head + drops);
      assert s == Segments(head) + Segments(drops);
      forall j | 1 <= j < n
        ensures s[j + 1] == Segment(x + Centre(kids[j]), bottom + Gap, x + Centre(kids[j]), bottom + 2 * Gap)
      {
        assert s[j + 1] == Segments(drops)[j - 1];
      }
    }
  }

  /** Horizontal connector topology. A collapsed node, or one without branches,
      strokes nothing. With one branch: a single segment 2 * Gap long straight
      down from the content's bottom centre. With more: a stem Gap long down from
      that point, a bar from the first branch's centre to the last one's, and a
      drop Gap long into each branch, in order. */
  lemma HorizontalTopology(kids: seq<Placed>, expanded: bool, vb: int, x: int, y: int, prior: string)
    requires |kids| > 0
    ensures var s, n, bottom := Segments(HorizontalPaint(kids, expanded, vb, x, y, prior)), |kids|, y + 2 * Gap + kids[0].extent.height;
      (!expanded || n == 1 ==> s == []) &&
      (expanded && n == 2 ==> s == [Segment(x + vb, bottom, x + vb, bottom + 2 * Gap)]) &&
      (expanded && n > 2 ==>
        |s| == n + 1 &&
        s[0] == Segment(x + vb, bottom, x + vb, bottom + Gap) &&
        s[1] == Segment(x + Centre(kids[1]), bottom + Gap, x + Centre(kids[n - 1]), bottom + Gap) &&
        forall j :: 1 <= j < n ==>
          s[j + 1] == Segment(x + Centre(kids[j]), bottom + Gap, x + Centre(kids[j]), bottom + 2 * Gap))
  {
    var c := kids[0].extent;
    HorizontalConnectorsArePath(kids, vb, x, y);
    PaintReading(kids, expanded, HorizontalConnectors(kids, vb, x, y), x + vb - Half(c.width) - Gap, y,
      c.width + 2 * Gap, Gap + c.height + Gap, x, y, prior);
    HorizontalConnectorSegments(kids, vb, x, y);
  }

  /** Vertical fill and stroke: one filled rectangle, in the highlight style,
      exactly when the node is collapsed and has branches; the fill style back
      to what it was; exactly one stroked rectangle, framing the content. */
  lemma VerticalFill(kids: seq<Placed>, expanded: bool, x: int, y: int, prior: string)
    requires |kids| > 0
    ensures var p, c := VerticalPaint(kids, expanded, x, y, prior), kids[0].extent;
      FillsUnder(prior, p) == (if !expanded && |kids| > 1 then [Highlight] else []) &&
      FinalStyle(prior, p) == prior &&
      Strokes(p) == [StrokeRect(x, y, 2 * Gap + c.width, 2 * Gap + c.height)]
  {
    var c := kids[0].extent;
    VerticalConnectorsArePath(kids, x, y);
    PaintReading(kids, expanded, VerticalConnectors(kids, x, y), x, y, Gap + c.width + Gap, Gap + c.height + Gap, x, y, prior);
  }

  /** Vertical display calls: the content always; the branches, in order, each
      at its own offset, exactly when the node is expanded. */
  lemma VerticalDisplays(kids: seq<Placed>, expanded: bool, x: int, y: int, prior: string)
    requires |kids| > 0
    ensures var s := Shown(VerticalPaint(kids, expanded, x, y, prior));
      |s| == (if expanded then |kids| else 1) &&
      forall j :: 0 <= j < |s| ==> s[j] == Show(j, x + kids[j].x, y + kids[j].y)
  {
    var c := kids[0].extent;
    VerticalConnectorsArePath(kids, x, y);
    PaintReading(kids, expanded, VerticalConnectors(kids, x, y), x, y, Gap + c.width + Gap, Gap + c.height + Gap, x, y, prior);
    ShownInOrder(kids, expanded, x, y, Shown(VerticalPaint(kids, expanded, x, y, prior)));
  }

  /** Vertical connector topology. A collapsed node, or one without branches,
      strokes nothing. Otherwise: one rail at x + Gap from a gap above the first
      branch down to the last branch's baseline, then one tick Gap long from the
      rail to each branch at that branch's baseline, in order. */
  lemma VerticalTopology(kids: seq<Placed>, expanded: bool, x: int, y: int, prior: string)
    requires |kids| > 0
    ensures var s, n := Segments(VerticalPaint(kids, expanded, x, y, prior)), |kids|;
      (!expanded || n == 1 ==> s == []) &&
      (expanded && n > 1 ==>
        |s| == n &&
        s[0] == Segment(x + Gap, y + kids[1].y - Gap, x + Gap, y + Level(kids[n - 1])) &&
        forall j :: 1 <= j < n ==> s[j] == Segment(x + Gap, y + Level(kids[j]), x + 2 * Gap, y + Level(kids[j])))
  {
    var n := |kids|;
    var c := kids[0].extent;
    VerticalConnectorsArePath(kids, x, y);
    PaintReading(kids, expanded, VerticalConnectors(kids, x, y), x, y, Gap + c.width + Gap, Gap + c.height + Gap, x, y, prior);
    if expanded && n > 1 {
      var rail := [MoveTo(x + Gap, y + kids[1].y - Gap), LineTo(x + Gap, y + Level(kids[n - 1]))];
      assert rail[2..] == [];
      SegmentsAppend(rail, Ticks(kids, n, x, y));
      TickSegments(kids, n, x, y);
    }
  }
}
