# Fōrmulæ diagramming package, modelled in Dafny

The Fōrmulæ diagramming package adds one expression kind, `Diagramming.Tree`.
A tree node's first child is its *content*. Its remaining children are its
*branches*, and a flag says whether the branches are shown (*expanded*) or
hidden (*collapsed*). The package draws the node one of two ways:

- horizontally: the content sits in a frame above a row of branches, with a stem, a bar and a drop into each branch;
- vertically: the content sits in a frame above a column of indented branches, with a rail and a tick into each branch.

The package also converts any expression into nested tree nodes (the
`Diagramming.ToTree` reduction).

The project models the following, one Dafny module per concern.

- `Expressions` (expressions.dfy): expressions as values, a kind plus ordered children. A tree node needs at least one child (`WellFormed`).
- `Serialization` (serialization.dfy): the single serialised field "Expanded" and its two literals.
- `Layout` (layout.dfy): what the layout pass produces, as closed-form functions of the children's extents:
  - the node's size and baselines (`HorizontalExtent`, `VerticalExtent`);
  - the children's offsets (`HorizontalChildren`, `VerticalChildren`);
  - the recursive bottom-up pass over a whole expression (`Measure`).
- `Painting` (painting.dfy): what the display pass issues, as a sequence of surface commands. It also has readers for that sequence: the fill style in force under each filled rectangle, the stroked rectangles, the line segments of the path, and the children's display calls.
- `Navigation` (navigation.dfy): where keyboard focus goes, as a tag naming the call the node makes. The tag is a child's own `moveTo`, the node's `moveOut`, or the node itself.
- `Surface` (surface.dfy): the drawing surface as a class with a current fill style and the log of commands issued to it.
- `Diagramming` (tree.dfy): the `Tree` class itself.
  - Its fields: `expanded`, `children`, `width`, `height`, `horzBaseline`, `vertBaseline`.
  - Its methods keep the source's loops. They are proved to produce exactly the `Layout` and `Painting` specifications, which carry the geometric and drawing properties.
- `Reduction` (reduction.dfy): `toTree` as a recursive function over expressions, and the reducer.

Conventions of the model:

- The orientation is a parameter; in the source it is a global switch.
- A child is an opaque `Placed(extent, x, y)`. The extent is whatever the child's own `prepareDisplay` left, and (x, y) is its offset in the parent.
- Each child's own `display` appears in the command log as one `Show(index, x, y)` command.
- `Math.round(k / 2)` on integers is `Half(k) = (k + 1) / 2`, rounding halves up for negative `k` too.

## Model

| member | source | states |
|---|---|---|
| Expressions.Tag | expression.js:31 | a tree node's tag is "Diagramming.Tree" and a string's is "String.String" |
| Diagramming.Tree.constructor | expression.js:26-29 | a new tree node is expanded and holds the children given to it |
| Diagramming.Tree.SetExpanded | expression.js:35-42 | set("Expanded", v) stores v in the flag and changes nothing else |
| Serialization.SerializationNames | expression.js:49-51 | exactly one serialised field, "Expanded" |
| Serialization.Encode | expression.js:53-55 | one string per field; it is "True" or "False" and is "True" exactly when the node is expanded |
| Serialization.Decode | expression.js:57-63 | accepts exactly the inputs whose first string is "True" or "False" (an empty input is refused); the flag read is true iff that string is "True"; a refusal carries "Invalid expansion state" |
| Serialization.DecodeEncode | expression.js:53-63 | decoding what was encoded gives back the flag |
| Serialization.EncodeDecode | expression.js:53-63 | encoding an accepted input's flag gives back its first string |
| Diagramming.Tree.GetSerializationStrings | expression.js:53-55 | returns the encoding of the node's flag, which decodes back to that flag |
| Diagramming.Tree.SetSerializationStrings | expression.js:57-63 | sets the flag to the decoded value on success, and leaves the node untouched on refusal |
| Layout.HorizontalSize | expression.js:74-119 | horizontal size: the framed content 2*Gap wider and taller than the content; with shown branches the width is the larger of the framed content and the branch row, and the height adds 2*Gap plus the tallest branch; the result is a sound extent |
| Layout.TallestIsMax | expression.js:90-98 | the running maximum height is at least every branch height seen so far, and is one of them or 0 |
| Layout.RowStartsApart | expression.js:90-98 | a later branch starts at least one gutter after an earlier branch ends |
| Layout.HorizontalBranchPlacement | expression.js:88-106 | branches are placed at the running sum of widths and gutters, shifted by the excess, on one row 4*Gap + content height down, in order, without overlap, inside the node |
| Layout.HorizontalChildren | expression.js:76-84 | the content sits Gap below the top; a node that shows no branches puts its content at (Gap, Gap) and leaves every branch exactly as it was |
| Layout.HorizontalCentring | expression.js:101-113 | the content is centred in the node (rounded half), Gap below the top; a narrower branch row is centred too |
| Layout.HorizontalIdempotent | expression.js:74-119 | running the horizontal pass on an already laid-out node changes neither the offsets nor the size |
| Layout.WidestIsMax | expression.js:132-145 | the width is at least the framed content and every indented branch, and equals one of them |
| Layout.VerticalSize | expression.js:121-149 | vertical size: framed content, plus a gap and the height of each shown branch; the width is the widest of the framed content and the indented branches; baselines inside the size |
| Layout.StackGrows | expression.js:132-145 | the running height never shrinks |
| Layout.VerticalChildren | expression.js:122-131 | the content is at (Gap, Gap); a node that shows no branches leaves every branch exactly as it was |
| Layout.VerticalBranchPlacement | expression.js:121-149 | branches are indented by 2*Gap; the first is a gap below the framed content, each next is a gap below the previous, the last ends at the bottom edge, and all lie inside the node |
| Layout.VerticalIdempotent | expression.js:121-149 | running the vertical pass on an already laid-out node changes neither the offsets nor the size |
| Layout.ExtentsDetermineLayout | expression.js:74-149 | the node's size and baselines depend only on the children's extents, in either orientation |
| Layout.OrientationsDiverge | expression.js:65-149 | the same children give a 140-wide horizontal node and a 70-wide vertical one |
| Layout.MeasureSound | expression.js:74-149 | over a whole well-formed expression, every tree node gets a non-negative size with its baselines inside, in either orientation |
| Diagramming.Tree.PrepareDisplay | expression.js:65-72 | the chosen orientation's pass is what runs |
| Diagramming.Tree.PrepareDisplayHorizontal | expression.js:74-119 | the new offsets, size and baselines are exactly the horizontal layout of the old children |
| Diagramming.Tree.PrepareDisplayVertical | expression.js:121-149 | the new offsets, size and baselines are exactly the vertical layout of the old children |
| Diagramming.LayRow | expression.js:84-99 | the first loop places branch j at the running sum of widths and gutters, and yields the row width and the tallest branch |
| Diagramming.ShiftRow | expression.js:101-106 | the second loop moves every branch, and only the branches, right by the excess |
| Diagramming.StackBranches | expression.js:131-146 | the loop stacks branch j at its running top, indented, and yields the node's width and height |
| Diagramming.HorizontalPassAgrees | expression.js:74-119 | the pieces the horizontal pass assembles are the horizontal layout |
| Diagramming.VerticalPassAgrees | expression.js:121-149 | the pieces the vertical pass assembles are the vertical layout |
| Painting.FrameReading | expression.js:170-177 | the frame fills one rectangle in the highlight style only when asked, strokes one rectangle, and puts the fill style back |
| Painting.HorizontalFill | expression.js:160-216 | horizontal display fills in orange exactly when collapsed with branches; the fill style ends as it began; one stroked rectangle, around the content on the node's vertical baseline |
| Painting.HorizontalDisplays | expression.js:179-215 | the content is displayed always; the branches are displayed, in order and each at its own offset, exactly when expanded |
| Painting.HorizontalConnectorSegments | expression.js:185-209 | one branch gets a single segment 2*Gap long; more branches get a stem, a bar from the first to the last branch centre, and one drop per branch in order |
| Painting.HorizontalTopology | expression.js:160-216 | the horizontal stroked path is empty when collapsed or branchless, and otherwise has the shape above |
| Painting.VerticalFill | expression.js:218-230 | vertical display fills in orange exactly when collapsed with branches; the fill style is restored; one stroked rectangle at the node's corner |
| Painting.VerticalDisplays | expression.js:231-256 | the content is displayed always; the branches are displayed, in order at their offsets, exactly when expanded |
| Painting.VerticalTopology | expression.js:237-252 | a rail from a gap above the first branch down to the last branch's baseline, then one tick per branch at its baseline |
| Painting.SegmentsAppend | expression.js:185-211 | the path of two closed command runs is the two paths one after the other |
| Painting.BranchShowsInOrder | expression.js:213-215 | the last loop displays branches 1 .. n-1 in order |
| Diagramming.Tree.Display | expression.js:151-158 | the chosen orientation's display is what is issued |
| Diagramming.Tree.DisplayHorizontal | expression.js:160-216 | the surface receives exactly the horizontal painting of the node and its fill style ends as it began |
| Diagramming.Tree.DisplayVertical | expression.js:218-257 | the surface receives exactly the vertical painting of the node and its fill style ends as it began |
| Diagramming.DrawFrame | expression.js:170-177 | save, highlight fill, restore, stroke: the fill style ends as it began |
| Diagramming.TraceHorizontalConnectors | expression.js:185-209 | the labelled loop, including its early exit for a single branch, issues exactly the horizontal connectors |
| Diagramming.TraceVerticalConnectors | expression.js:237-250 | the loop issues exactly the rail and the ticks |
| Diagramming.ShowBranches | expression.js:213-215 | the loop issues the branches' display calls, in order |
| Diagramming.HorizontalFrameInset | expression.js:107-113 | the frame's left edge is Gap left of the content, or Gap + 1 exactly when the row sets an even width and the content width is odd |
| Diagramming.HorizontalDropsMeetBranches | expression.js:74-216 | after layout, the single connector of a one-branch node, and every drop of a node with more branches, ends on its branch's top edge, within its width |
| Diagramming.VerticalTicksMeetBranches | expression.js:121-257 | after layout, the rail starts on the frame's bottom edge and ends at the last baseline; every tick ends on its branch's left edge, within its height |
| Navigation.MoveAcrossHorizontal | expression.js:263-286 | Previous goes to index-1 iff index > 1; Next to index+1 iff 0 < index < n-1; Up to 0 iff index > 0; Down to 1 iff index is 0 and n > 1; otherwise moveOut with the same direction |
| Navigation.MoveAcrossVertical | expression.js:288-311 | Up and Previous go to index-1 iff index > 0; Down and Next go to index+1 iff index < n-1; otherwise moveOut |
| Navigation.MoveAcross | expression.js:259-261 | any in-node target is a different child within [0, n); the node itself is never the answer |
| Navigation.MoveToHorizontal | expression.js:317-323 | a collapsed node keeps the focus; an expanded one gives it to the content, in the same direction |
| Navigation.MoveToVertical | expression.js:325-336 | a collapsed node keeps the focus; Up enters the last child, any other direction the first |
| Navigation.MoveTo | expression.js:313-315 | focus stays on the node iff it is collapsed, and never moves out |
| Navigation.MoveAcrossReturns | expression.js:259-311 | turning back from a move inside the node returns to where it started, except horizontal Up from a branch after the first |
| Navigation.VerticalSynonyms | expression.js:288-311 | vertically, Up and Previous reach the same child, and so do Down and Next |
| Navigation.EntryFacesArrival | expression.js:259-336 | after entering an expanded node, turning back moves out again, except horizontal Up and vertical Previous into a node with branches |
| Reduction.ToTree | reduction.js:23-41 | the result is an expanded tree node with one child for a childless source and n+1 children otherwise |
| Reduction.ToTreeCases | reduction.js:26-37 | a childless source is copied as the only child; otherwise child 0 is a string holding the source's tag, and child i+1 is the conversion of source child i |
| Reduction.RecoverToTree | reduction.js:23-41 | reading a conversion back yields the source's outline (its childless parts whole, and the tag of every other node) |
| Reduction.ToTreeKeepsOutline | reduction.js:23-41 | two sources with the same conversion have the same outline |
| Reduction.OneTreePerNode | reduction.js:23-41 | a well-formed source of k nodes converts to exactly k tree nodes |
| Reduction.ConvertedDepth | reduction.js:23-41 | the conversion is exactly one level deeper than its source |
| Reduction.ConvertedIsDiagram | reduction.js:23-41 | every tree node produced is expanded and non-empty, with a string label ahead of its branches or a single childless child |
| Reduction.ConvertedWellFormed | reduction.js:26-37 | a well-formed source converts to a well-formed result |
| Reduction.ChildlessTreeStaysMalformed | reduction.js:26-28 | a childless tree node is copied as is, so its conversion is not well formed |
| Reduction.ConvertedMeasurable | reduction.js:23-41 | every tree node in a converted well-formed expression gets a sound layout in either orientation |
| Reduction.ToTreeReducer | reduction.js:43-46 | the reducer always succeeds; its replacement is a diagram whose outline is that of the call's first argument |

## Left out

- The configuration dialog and the global orientation switch (expression.js:350-380) are DOM and host code. The orientation is a parameter of every operation instead.
- edition.js is not part of this model. It registers the toggle action, which only negates the flag (see `Diagramming.Tree.SetExpanded`) and then calls back into the host.
- The registration functions `setExpressions` and `setReducers`, and `getName` with its message lookups, are host bookkeeping.
- Children are opaque. Their own `prepareDisplay`, `display` and `moveTo`, and the node's `moveOut`, are calls into code outside the package. They appear as the child's extent, a `Show` command and a `Target` tag.
- `Diagramming.Tree.PrepareDisplayHorizontal`, `Diagramming.Tree.PrepareDisplayVertical`: the children's own `prepareDisplay` calls, made inside the loops, are not modelled. The children's extents are taken as already measured.
- `clone`, `createExpression` and `replaceBy` are host calls.
  - A copy is the same expression value.
  - `Reduction.ToTreeReducer` returns the replacement instead of splicing it into the document.
  - `Reduction.ToTreeReducer` requires at least one argument, because the source reads `children[0]` unguarded.
- The drawing surface keeps only the fill style and the order of the commands, not pixels. The highlight colour is the string "orange".
- Font metrics are integers, so `Math.round(k / 2)` is exact. Floating point is not modelled.
- `getSerializationStrings` and the reducer are asynchronous in the source but do no asynchronous work. They are synchronous here, and the unused `session` argument is dropped.
- `get`/`set` of attributes other than "Expanded" go to the unseen base class. `get("Expanded")` is a read of the `expanded` field.
- `canHaveChildren` (expression.js:33) is the invariant `Expressions.WellFormed`. Every layout and display operation requires at least one child.
