/** Geometry of a tree node in the two orientations, in closed form.

    A node's children are opaque here: each carries the extent its own
    prepareDisplay left behind and the offset (x, y) its parent gave it. The
    functions below say what a node's layout pass produces from its children's
    extents; the class Diagramming.Tree computes the same values with the loops
    of the JavaScript package and is proved equal to them. */
module Layout {
  import opened Expressions

  /** Every inset, margin, gutter and connector unit of the diagram. */
  const Gap: int := 10

  /** Math.round(k / 2) for an integer k: the nearest integer, halves upwards. */
  function Half(k: int): (r: int)
    ensures 2 * r == k || 2 * r == k + 1
  {
    (k + 1) / 2
  }

  function Max(a: int, b: int): (m: int)
    ensures a <= m && b <= m && (m == a || m == b)
  {
    if a < b then b else a
  }

  datatype Orientation = Horizontal | Vertical

  /** Size and the two alignment baselines of a laid-out expression. */
  datatype Extent = Extent(width: int, height: int, horzBaseline: int, vertBaseline: int)

  /** A child as its parent sees it: its extent and its offset in the parent. */
  datatype Placed = Placed(extent: Extent, x: int, y: int)

  /** Non-negative size, each baseline within its dimension. */
  predicate Sound(e: Extent)
  {
    0 <= e.width && 0 <= e.height &&
    0 <= e.horzBaseline <= e.height && 0 <= e.vertBaseline <= e.width
  }

  predicate AllSound(kids: seq<Placed>)
  {
    forall i :: 0 <= i < |kids| ==> Sound(kids[i].extent)
  }

  predicate SameExtents(a: seq<Placed>, b: seq<Placed>)
  {
    |a| == |b| && forall i :: 0 <= i < |a| ==> a[i].extent == b[i].extent
  }

  /** Branches are laid out only for an expanded node that has some. */
  predicate ShowsBranches(kids: seq<Placed>, expanded: bool)
  {
    |kids| > 1 && expanded
  }

  /** Width of the content framed by its two insets. */
  function Framed(kids: seq<Placed>): int
    requires |kids| > 0
  {
    Gap + kids[0].extent.width + Gap
  }

  // ---------------------------------------------------------------- horizontal

  /** Sum of the widths of branches 1 .. i-1. */
  function BranchWidths(kids: seq<Placed>, i: nat): (s: int)
    requires 1 <= i <= |kids|
    ensures AllSound(kids) ==> 0 <= s
  {
    if i == 1 then 0 else BranchWidths(kids, i - 1) + kids[i - 1].extent.width
  }

  /** Offset of branch i in the branch row before centring: the widths of the
      branches before it and one gutter after each of them. */
  function RowStart(kids: seq<Placed>, i: nat): int
    requires 1 <= i <= |kids|
  {
    BranchWidths(kids, i) + Gap * (i - 1)
  }

  /** Width of the branch row: all branches and the gutters between them. */
  function RowWidth(kids: seq<Placed>): int
    requires |kids| > 0
  {
    if |kids| == 1 then 0 else RowStart(kids, |kids|) - Gap
  }

  /** Height of the tallest of branches 1 .. i-1 (0 when there is none). */
  function Tallest(kids: seq<Placed>, i: nat): int
    requires 1 <= i <= |kids|
  {
    if i == 1 then 0 else Max(Tallest(kids, i - 1), kids[i - 1].extent.height)
  }

  /** The branch row is at least as wide as the framed content ("root is thinner"). */
  predicate RowAtLeastAsWide(kids: seq<Placed>)
    requires |kids| > 0
  {
    Framed(kids) <= RowWidth(kids)
  }

  /** Shift applied to every branch when the framed content is the wider part. */
  function Excess(kids: seq<Placed>): int
    requires |kids| > 0
  {
    if RowAtLeastAsWide(kids) then 0 else Half(Framed(kids) - RowWidth(kids))
  }

  function HorizontalExtent(kids: seq<Placed>, expanded: bool): Extent
    requires |kids| > 0
  {
    var shows := ShowsBranches(kids, expanded);
    var width := if shows && RowAtLeastAsWide(kids) then RowWidth(kids) else Framed(kids);
    var height := Gap + kids[0].extent.height + Gap + (if shows then 2 * Gap + Tallest(kids, |kids|) else 0);
    Extent(width, height, Half(height), Half(width))
  }

  /** The children after the horizontal pass: content inset (or re-centred over
      a wider branch row), branches side by side below it; the branches of a
      node that shows none keep the offsets they had. */
  function HorizontalChildren(kids: seq<Placed>, expanded: bool): (r: seq<Placed>)
    requires |kids| > 0
    ensures SameExtents(r, kids)
    ensures r[0].y == Gap
    ensures !ShowsBranches(kids, expanded) ==> r[0].x == Gap && forall i :: 1 <= i < |kids| ==> r[i] == kids[i]
  {
    var shows := ShowsBranches(kids, expanded);
    seq(|kids|, i requires 0 <= i < |kids| =>
      if i == 0 then
        kids[0].(x := if shows && RowAtLeastAsWide(kids) then Half(RowWidth(kids) - kids[0].extent.width) else Gap,
                 y := Gap)
      else if shows then
        kids[i].(x := RowStart(kids, i) + Excess(kids), y := 4 * Gap + kids[0].extent.height)
      else kids[i])
  }

  /** The horizontal size formulas and the baseline bounds. */
  lemma HorizontalSize(kids: seq<Placed>, expanded: bool)
    requires |kids| > 0 && AllSound(kids)
    ensures var e, c := HorizontalExtent(kids, expanded), kids[0].extent;
      Sound(e) &&
      (!ShowsBranches(kids, expanded) ==> e.width == 2 * Gap + c.width && e.height == 2 * Gap + c.height) &&
      (ShowsBranches(kids, expanded) ==>
        e.width == Max(2 * Gap + c.width, RowWidth(kids)) &&
        e.height == 4 * Gap + c.height + Tallest(kids, |kids|))
  {
    TallestIsMax(kids, |kids|);
  }

  /** Tallest is the largest branch height seen so far, or 0. */
  lemma {:induction false} TallestIsMax(kids: seq<Placed>, i: nat)
    requires 1 <= i <= |kids|
    ensures 0 <= Tallest(kids, i)
    ensures forall j :: 1 <= j < i ==> kids[j].extent.height <= Tallest(kids, i)
    ensures Tallest(kids, i) == 0 || exists j :: 1 <= j < i && Tallest(kids, i) == kids[j].extent.height
  {
    if i > 1 {
      TallestIsMax(kids, i - 1);
    }
  }

  /** Consecutive branches sit one gutter apart, so a later branch starts after
      an earlier one ends. */
  lemma {:induction false} RowStartsApart(kids: seq<Placed>, i: nat, j: nat)
    requires AllSound(kids) && 1 <= i < j < |kids|
    ensures RowStart(kids, i) + kids[i].extent.width + Gap <= RowStart(kids, j)
  {
    if j > i + 1 {
      RowStartsApart(kids, i, j - 1);
    }
  }

  /** Branch i after the horizontal pass of a node that shows its branches. */
  lemma HorizontalBranchAt(kids: seq<Placed>, expanded: bool, i: nat)
    requires 1 <= i < |kids| && ShowsBranches(kids, expanded)
    ensures HorizontalChildren(kids, expanded)[i] ==
      kids[i].(x := RowStart(kids, i) + Excess(kids), y := 4 * Gap + kids[0].extent.height)
  {
  }

  /** Where the horizontal pass puts the branches: on one row below the content,
      in order, a gutter apart, without overlapping, inside the node. */
  lemma HorizontalBranchPlacement(kids: seq<Placed>, expanded: bool)
    requires |kids| > 0 && AllSound(kids) && ShowsBranches(kids, expanded)
    ensures var r, e := HorizontalChildren(kids, expanded), HorizontalExtent(kids, expanded);
      (forall i :: 1 <= i < |kids| ==> r[i].x - Excess(kids) == BranchWidths(kids, i) + Gap * (i - 1)) &&
      (forall i :: 1 <= i < |kids| ==>
        r[i].y == 4 * Gap + kids[0].extent.height &&
        0 <= r[i].x && r[i].x + r[i].extent.width <= e.width &&
        r[i].y + r[i].extent.height <= e.height) &&
      (forall i, j :: 1 <= i < j < |kids| ==> r[i].x + r[i].extent.width + Gap <= r[j].x)
  {
    var r, e := HorizontalChildren(kids, expanded), HorizontalExtent(kids, expanded);
    var n := |kids|;
    TallestIsMax(kids, n);
    var excess := Excess(kids);
    var row := RowWidth(kids);
    assert row == RowStart(kids, n - 1) + kids[n - 1].extent.width;
    assert 0 <= excess && row + excess <= e.width;
    forall i | 1 <= i < n
      ensures r[i].x - excess == BranchWidths(kids, i) + Gap * (i - 1)
      ensures r[i].y == 4 * Gap + kids[0].extent.height
      ensures 0 <= r[i].x && r[i].x + r[i].extent.width <= e.width
      ensures r[i].y + r[i].extent.height <= e.height
    {
      HorizontalBranchAt(kids, expanded, i);
      if i < n - 1 {
        RowStartsApart(kids, i, n - 1);
      }
    }
    forall i, j | 1 <= i < j < n
      ensures r[i].x + r[i].extent.width + Gap <= r[j].x
    {
      HorizontalBranchAt(kids, expanded, i);
      HorizontalBranchAt(kids, expanded, j);
      RowStartsApart(kids, i, j);
    }
  }

  /** The content is centred in the node (halves rounding up), one inset below
      its top edge; and the branch row, when shown, is centred as well. */
  lemma HorizontalCentring(kids: seq<Placed>, expanded: bool)
    requires |kids| > 0 && AllSound(kids)
    ensures var r, e := HorizontalChildren(kids, expanded), HorizontalExtent(kids, expanded);
      r[0].x == Half(e.width - kids[0].extent.width) && r[0].y == Gap &&
      0 <= r[0].x && r[0].x + kids[0].extent.width <= e.width &&
      (ShowsBranches(kids, expanded) ==> Excess(kids) == Half(e.width - RowWidth(kids)))
  {
  }

  /** Laying out an already laid-out node changes nothing. */
  lemma HorizontalIdempotent(kids: seq<Placed>, expanded: bool)
    requires |kids| > 0
    ensures HorizontalChildren(HorizontalChildren(kids, expanded), expanded) == HorizontalChildren(kids, expanded)
    ensures HorizontalExtent(HorizontalChildren(kids, expanded), expanded) == HorizontalExtent(kids, expanded)
  {
    var r := HorizontalChildren(kids, expanded);
    var rr := HorizontalChildren(r, expanded);
    var n := |kids|;
    ExtentsDetermineSumsAt(r, kids, n);
    assert RowWidth(r) == RowWidth(kids);
    assert Excess(r) == Excess(kids);
    forall i | 0 <= i < n
      ensures rr[i] == r[i]
    {
      if i > 0 {
        ExtentsDetermineSumsAt(r, kids, i);
      }
    }
  }

  // ------------------------------------------------------------------ vertical

  /** Height taken by branches 1 .. i-1 stacked with a gap above each. */
  function Stack(kids: seq<Placed>, i: nat): (s: int)
    requires 1 <= i <= |kids|
    ensures AllSound(kids) ==> 0 <= s
  {
    if i == 1 then 0 else Stack(kids, i - 1) + Gap + kids[i - 1].extent.height
  }

  /** The widest of the framed content and branches 1 .. i-1 indented by 2 * Gap. */
  function Widest(kids: seq<Placed>, i: nat): int
    requires 1 <= i <= |kids|
  {
    if i == 1 then Framed(kids) else Max(Widest(kids, i - 1), 2 * Gap + kids[i - 1].extent.width)
  }

  function VerticalExtent(kids: seq<Placed>, expanded: bool): Extent
    requires |kids| > 0
  {
    var shows := ShowsBranches(kids, expanded);
    var width := if shows then Widest(kids, |kids|) else Framed(kids);
    var height := Gap + kids[0].extent.height + Gap + (if shows then Stack(kids, |kids|) else 0);
    Extent(width, height, Gap + kids[0].extent.horzBaseline, Half(width))
  }

  /** Top of branch i in the vertical layout. */
  function StackTop(kids: seq<Placed>, i: nat): int
    requires 1 <= i <= |kids|
  {
    Gap + kids[0].extent.height + Gap + Stack(kids, i) + Gap
  }

  /** The children after the vertical pass: content inset, branches stacked
      below it, indented; the branches of a node that shows none keep the
      offsets they had. */
  function VerticalChildren(kids: seq<Placed>, expanded: bool): (r: seq<Placed>)
    requires |kids| > 0
    ensures SameExtents(r, kids)
    ensures r[0].x == Gap && r[0].y == Gap
    ensures !ShowsBranches(kids, expanded) ==> forall i :: 1 <= i < |kids| ==> r[i] == kids[i]
  {
    var shows := ShowsBranches(kids, expanded);
    seq(|kids|, i requires 0 <= i < |kids| =>
      if i == 0 then kids[0].(x := Gap, y := Gap)
      else if shows then kids[i].(x := 2 * Gap, y := StackTop(kids, i))
      else kids[i])
  }

  /** Widest is the largest framed width seen so far. */
  lemma {:induction false} WidestIsMax(kids: seq<Placed>, i: nat)
    requires 1 <= i <= |kids|
    ensures Framed(kids) <= Widest(kids, i)
    ensures forall j :: 1 <= j < i ==> 2 * Gap + kids[j].extent.width <= Widest(kids, i)
    ensures Widest(kids, i) == Framed(kids) ||
            exists j :: 1 <= j < i && Widest(kids, i) == 2 * Gap + kids[j].extent.width
  {
    if i > 1 {
      WidestIsMax(kids, i - 1);
    }
  }

  /** The vertical size formulas; both baselines stay within bounds when the
      children's do. */
  lemma VerticalSize(kids: seq<Placed>, expanded: bool)
    requires |kids| > 0 && AllSound(kids)
    ensures var e, c := VerticalExtent(kids, expanded), kids[0].extent;
      Sound(e) && e.horzBaseline == Gap + c.horzBaseline &&
      (!ShowsBranches(kids, expanded) ==> e.width == 2 * Gap + c.width && e.height == 2 * Gap + c.height) &&
      (ShowsBranches(kids, expanded) ==>
        e.height == 2 * Gap + c.height + Stack(kids, |kids|) &&
        2 * Gap + c.width <= e.width &&
        (forall j :: 1 <= j < |kids| ==> 2 * Gap + kids[j].extent.width <= e.width) &&
        (e.width == 2 * Gap + c.width || exists j :: 1 <= j < |kids| && e.width == 2 * Gap + kids[j].extent.width))
  {
    WidestIsMax(kids, |kids|);
  }

  /** Stack never shrinks. */
  lemma {:induction false} StackGrows(kids: seq<Placed>, i: nat, j: nat)
    requires AllSound(kids) && 1 <= i <= j <= |kids|
    ensures Stack(kids, i) <= Stack(kids, j)
  {
    if i < j {
      StackGrows(kids, i, j - 1);
    }
  }

  /** Where the vertical pass puts the branches: indented by 2 * Gap, the first
      one gap below the framed content, each next one gap below the previous,
      the last one ending at the bottom edge, all inside the node. */
  lemma VerticalBranchPlacement(kids: seq<Placed>, expanded: bool)
    requires |kids| > 0 && AllSound(kids) && ShowsBranches(kids, expanded)
    ensures var r, e, n := VerticalChildren(kids, expanded), VerticalExtent(kids, expanded), |kids|;
      r[0].x == Gap && r[0].y == Gap &&
      r[1].y == 2 * Gap + kids[0].extent.height + Gap &&
      (forall i :: 1 <= i < n - 1 ==> r[i + 1].y == r[i].y + r[i].extent.height + Gap) &&
      r[n - 1].y + r[n - 1].extent.height == e.height &&
      (forall i :: 1 <= i < n ==>
        r[i].x == 2 * Gap && r[i].x + r[i].extent.width <= e.width &&
        r[i].y + r[i].extent.height <= e.height)
  {
    var n := |kids|;
    WidestIsMax(kids, n);
    forall i | 1 <= i < n
      ensures StackTop(kids, i) + kids[i].extent.height <= VerticalExtent(kids, expanded).height
    {
      StackGrows(kids, i + 1, n);
    }
  }

  /** Laying out an already laid-out node changes nothing. */
  lemma VerticalIdempotent(kids: seq<Placed>, expanded: bool)
    requires |kids| > 0
    ensures VerticalChildren(VerticalChildren(kids, expanded), expanded) == VerticalChildren(kids, expanded)
    ensures VerticalExtent(VerticalChildren(kids, expanded), expanded) == VerticalExtent(kids, expanded)
  {
    var r := VerticalChildren(kids, expanded);
    var rr := VerticalChildren(r, expanded);
    var n := |kids|;
    ExtentsDetermineSumsAt(r, kids, n);
    forall i | 0 <= i < n
      ensures rr[i] == r[i]
    {
      if i > 0 {
        ExtentsDetermineSumsAt(r, kids, i);
      }
    }
  }

  /** Every running sum and maximum reads only the children's extents. */
  lemma {:induction false} ExtentsDetermineSumsAt(a: seq<Placed>, b: seq<Placed>, i: nat)
    requires |a| > 0 && SameExtents(a, b) && 1 <= i <= |a|
    ensures BranchWidths(a, i) == BranchWidths(b, i) && Tallest(a, i) == Tallest(b, i)
    ensures Stack(a, i) == Stack(b, i) && Widest(a, i) == Widest(b, i)
  {
    if i > 1 {
      ExtentsDetermineSumsAt(a, b, i - 1);
    }
  }

  /** A node's size and baselines depend only on its children's extents, in
      either orientation, never on the offsets the children had before. */
  lemma ExtentsDetermineLayout(a: seq<Placed>, b: seq<Placed>, expanded: bool)
    requires |a| > 0 && SameExtents(a, b)
    ensures HorizontalExtent(a, expanded) == HorizontalExtent(b, expanded)
    ensures VerticalExtent(a, expanded) == VerticalExtent(b, expanded)
  {
    ExtentsDetermineSumsAt(a, b, |a|);
  }

  /** Branch widths 30, 40, 50 under a content 20 wide: 140 wide horizontally,
      70 wide vertically. */
  lemma OrientationsDiverge(content: Extent, b1: Extent, b2: Extent, b3: Extent)
    requires content.width == 20 && b1.width == 30 && b2.width == 40 && b3.width == 50
    ensures var kids := [Placed(content, 0, 0), Placed(b1, 0, 0), Placed(b2, 0, 0), Placed(b3, 0, 0)];
      HorizontalExtent(kids, true).width == 140 && VerticalExtent(kids, true).width == 70
  {
    var kids := [Placed(content, 0, 0), Placed(b1, 0, 0), Placed(b2, 0, 0), Placed(b3, 0, 0)];
    assert BranchWidths(kids, 2) == 30 && BranchWidths(kids, 3) == 70 && BranchWidths(kids, 4) == 120;
    assert Widest(kids, 2) == 50 && Widest(kids, 3) == 60 && Widest(kids, 4) == 70;
  }

  // ------------------------------------------------------- the recursive pass

  /** The bottom-up layout pass over a whole expression: a tree node lays out
      its children first and then itself; every other expression measures
      itself (leaf supplies those measurements). */
  function Measure(e: Expr, o: Orientation, leaf: Expr -> Extent): Extent
    requires WellFormed(e)
    decreases e
  {
    if e.kind.TreeKind? then
      var kids := seq(|e.children|, i requires 0 <= i < |e.children| => Placed(Measure(e.children[i], o, leaf), 0, 0));
      if o == Horizontal then HorizontalExtent(kids, e.kind.expanded) else VerticalExtent(kids, e.kind.expanded)
    else leaf(e)
  }

  /** Whatever the orientation, every tree node of a well-formed expression gets
      a non-negative size with baselines inside it, provided every other
      expression measures itself soundly. */
  lemma {:induction false} MeasureSound(e: Expr, o: Orientation, leaf: Expr -> Extent)
    requires WellFormed(e)
    requires forall x :: Sound(leaf(x))
    ensures Sound(Measure(e, o, leaf))
    decreases e
  {
    if e.kind.TreeKind? {
      var kids := seq(|e.children|, i requires 0 <= i < |e.children| => Placed(Measure(e.children[i], o, leaf), 0, 0));
      forall i | 0 <= i < |kids|
        ensures Sound(kids[i].extent)
      {
        MeasureSound(e.children[i], o, leaf);
      }
      if o == Horizontal {
        HorizontalSize(kids, e.kind.expanded);
      } else {
        VerticalSize(kids, e.kind.expanded);
      }
    }
  }
}
