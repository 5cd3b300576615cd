/** The Diagramming.ToTree reduction: any expression is rebuilt as nested tree
    nodes. A node without children becomes a tree holding a copy of it; any
    other node becomes a tree whose content is a string with the node's tag and
    whose branches are the conversions of its children, in order. */
module Reduction {
  import opened Expressions
  import Layout

  /** A freshly created tree node: expanded, with the given children. */
  function NewTree(children: seq<Expr>): (t: Expr)
    ensures t.kind == TreeKind(true) && t.children == children
  {
    Expr(TreeKind(true), children)
  }

  /** A String.String expression whose Value is `value`. */
  function Label(value: string): (s: Expr)
    ensures s.kind.StringKind? && s.kind.value == value && s.children == []
  {
    Expr(StringKind(value), [])
  }

  /** Diagramming.toTree. */
  function ToTree(e: Expr): (t: Expr)
    decreases e
    ensures t.kind == TreeKind(true)
    ensures |t.children| == (if |e.children| == 0 then 1 else |e.children| + 1)
  {
    if |e.children| == 0 then NewTree([e])
    else NewTree([Label(Tag(e.kind))] + seq(|e.children|, i requires 0 <= i < |e.children| => ToTree(e.children[i])))
  }

  /** The two cases of the conversion, child by child. */
  lemma ToTreeCases(e: Expr)
    ensures |e.children| == 0 ==> ToTree(e).children == [e]
    ensures |e.children| > 0 ==> ToTree(e).children[0] == Label(Tag(e.kind))
    ensures forall i :: 0 <= i < |e.children| ==> ToTree(e).children[i + 1] == ToTree(e.children[i])
  {
  }

  // ------------------------------------------------------------------ shape

  /** What the conversion keeps of an expression: a childless expression
      whole, and of every other node its tag and the outlines of its children. */
  datatype Outline = Leaf(source: Expr) | Node(tag: string, branches: seq<Outline>)

  function OutlineOf(e: Expr): (o: Outline)
    decreases e
    ensures o.Leaf? <==> |e.children| == 0
    ensures o.Node? ==> o.tag == Tag(e.kind) && |o.branches| == |e.children|
  {
    if |e.children| == 0 then Leaf(e)
    else Node(Tag(e.kind), seq(|e.children|, i requires 0 <= i < |e.children| => OutlineOf(e.children[i])))
  }

  /** Reading a diagram back: a tree with a single child shows that child; a
      tree whose content is a string shows a node with that tag whose branches
      are read from the tree's other children. Anything else is not a diagram. */
  function Recover(t: Expr): (r: Option<Outline>)
    decreases t
    ensures r.Some? ==> t.kind.TreeKind? && |t.children| > 0
  {
    if !t.kind.TreeKind? || |t.children| == 0 then None
    else if |t.children| == 1 then Some(Leaf(t.children[0]))
    else if !t.children[0].kind.StringKind? then None
    else
      var rest := t.children[1..];
      var parts := seq(|rest|, i requires 0 <= i < |rest| => Recover(rest[i]));
      if exists i :: 0 <= i < |parts| && parts[i].None? then None
      else Some(Node(t.children[0].kind.value, seq(|parts|, i requires 0 <= i < |parts| => parts[i].value)))
  }

  datatype Option<T> = None | Some(value: T)

  /** Reading back a conversion gives the outline of the source: the
      conversion loses nothing but the attributes of inner nodes. */
  lemma {:induction false} RecoverToTree(e: Expr)
    ensures Recover(ToTree(e)) == Some(OutlineOf(e))
    decreases e
  {
    var t := ToTree(e);
    if |e.children| > 0 {
      var rest := t.children[1..];
      var parts := seq(|rest|, i requires 0 <= i < |rest| => Recover(rest[i]));
      assert |rest| == |e.children|;
      forall i | 0 <= i < |rest|
        ensures parts[i] == Some(OutlineOf(e.children[i]))
      {
        assert rest[i] == ToTree(e.children[i]);
        RecoverToTree(e.children[i]);
      }
      assert !exists i :: 0 <= i < |parts| && parts[i].None?;
      var values := seq(|parts|, i requires 0 <= i < |parts| => parts[i].value);
      assert values == OutlineOf(e).branches;
    }
  }

  /** Two sources with the same conversion have the same outline. */
  lemma ToTreeKeepsOutline(a: Expr, b: Expr)
    requires ToTree(a) == ToTree(b)
    ensures OutlineOf(a) == OutlineOf(b)
  {
    RecoverToTree(a);
    RecoverToTree(b);
  }

  /** Number of nodes. */
  function Size(e: Expr): (s: nat)
    decreases e
    ensures s >= 1
  {
    1 + SizeOf(e.children)
  }

  function SizeOf(es: seq<Expr>): nat
    decreases es
  {
    if |es| == 0 then 0 else SizeOf(es[..|es| - 1]) + Size(es[|es| - 1])
  }

  /** Number of tree nodes. */
  function TreeCount(e: Expr): nat
    decreases e
  {
    (if e.kind.TreeKind? then 1 else 0) + TreeCountOf(e.children)
  }

  function TreeCountOf(es: seq<Expr>): nat
    decreases es
  {
    if |es| == 0 then 0 else TreeCountOf(es[..|es| - 1]) + TreeCount(es[|es| - 1])
  }

  /** Length of the longest path from the root to a leaf, counted in nodes. */
  function Depth(e: Expr): (d: nat)
    decreases e
    ensures d >= 1
  {
    1 + DepthOf(e.children)
  }

  function DepthOf(es: seq<Expr>): nat
    decreases es
  {
    if |es| == 0 then 0 else Layout.Max(DepthOf(es[..|es| - 1]), Depth(es[|es| - 1]))
  }

  /** The conversions of a sequence of expressions, in order. */
  function ToTrees(es: seq<Expr>): (ts: seq<Expr>)
    ensures |ts| == |es|
  {
    seq(|es|, i requires 0 <= i < |es| => ToTree(es[i]))
  }

  /** A well-formed expression has no childless tree node, so the only tree
      nodes of its conversion are the ones the conversion creates: one per
      source node. */
  lemma {:induction false} OneTreePerNode(e: Expr)
    requires WellFormed(e)
    ensures TreeCount(ToTree(e)) == Size(e)
    decreases e
  {
    if |e.children| > 0 {
      var kids := ToTrees(e.children);
      assert ToTree(e).children == [Label(Tag(e.kind))] + kids;
      TreeCountOfPrefixed(Label(Tag(e.kind)), kids);
      assert TreeCount(Label(Tag(e.kind))) == 0;
      OneTreePerNodeOf(e.children);
    } else {
      assert ToTree(e).children == [e] && [e][..0] == [];
      assert TreeCount(e) == 0;
    }
  }

  lemma {:induction false} OneTreePerNodeOf(es: seq<Expr>)
    requires forall i :: 0 <= i < |es| ==> WellFormed(es[i])
    ensures TreeCountOf(ToTrees(es)) == SizeOf(es)
    decreases es
  {
    if |es| > 0 {
      var m := |es| - 1;
      assert ToTrees(es)[..m] == ToTrees(es[..m]);
      OneTreePerNodeOf(es[..m]);
      OneTreePerNode(es[m]);
    }
  }

  lemma {:induction false} TreeCountOfPrefixed(s: Expr, es: seq<Expr>)
    ensures TreeCountOf([s] + es) == TreeCount(s) + TreeCountOf(es)
    decreases |es|
  {
    if |es| > 0 {
      var m := |es| - 1;
      assert ([s] + es)[..m + 1] == [s] + es[..m];
      TreeCountOfPrefixed(s, es[..m]);
    }
  }

  /** The conversion is one level deeper than its source: every source node
      becomes a tree and every leaf ends up one level below its tree. */
  lemma {:induction false} ConvertedDepth(e: Expr)
    ensures Depth(ToTree(e)) == Depth(e) + 1
    decreases e
  {
    if |e.children| > 0 {
      var kids := ToTrees(e.children);
      assert ToTree(e).children == [Label(Tag(e.kind))] + kids;
      DepthOfPrefixed(Label(Tag(e.kind)), kids);
      ConvertedDepthOf(e.children);
      DepthOfPositive(e.children);
    }
  }

  lemma {:induction false} ConvertedDepthOf(es: seq<Expr>)
    requires |es| > 0
    ensures DepthOf(ToTrees(es)) == DepthOf(es) + 1
    decreases es
  {
    var m := |es| - 1;
    assert ToTrees(es)[..m] == ToTrees(es[..m]);
    ConvertedDepth(es[m]);
    if m > 0 {
      ConvertedDepthOf(es[..m]);
    }
  }

  lemma {:induction false} DepthOfPositive(es: seq<Expr>)
    requires |es| > 0
    ensures DepthOf(es) >= 1
  {
    var m := |es| - 1;
    assert Depth(es[m]) >= 1;
  }

  lemma {:induction false} DepthOfPrefixed(s: Expr, es: seq<Expr>)
    ensures DepthOf([s] + es) == Layout.Max(Depth(s), DepthOf(es))
    decreases |es|
  {
    if |es| > 0 {
      var m := |es| - 1;
      assert ([s] + es)[..m + 1] == [s] + es[..m];
      DepthOfPrefixed(s, es[..m]);
    }
  }

  // ------------------------------------------------------- well-formedness

  /** What the conversion builds: every tree node expanded and with at least
      one child; a tree with one child holds a childless expression, any other
      tree a string label followed by diagrams. */
  predicate Diagram(t: Expr)
    decreases t
  {
    && t.kind == TreeKind(true)
    && |t.children| > 0
    && (|t.children| == 1 ==> t.children[0].children == [])
    && (|t.children| > 1 ==> t.children[0].kind.StringKind? && t.children[0].children == [])
    && (forall i :: 1 <= i < |t.children| ==> Diagram(t.children[i]))
  }

  /** Every conversion is a diagram. */
  lemma {:induction false} ConvertedIsDiagram(e: Expr)
    ensures Diagram(ToTree(e))
    decreases e
  {
    var t := ToTree(e);
    if |e.children| > 0 {
      forall i | 1 <= i < |t.children|
        ensures Diagram(t.children[i])
      {
        assert t.children[i] == ToTree(e.children[i - 1]);
        ConvertedIsDiagram(e.children[i - 1]);
      }
    }
  }

  /** The conversion of a well-formed expression is well formed: a childless
      source is never a tree node, so the one-child trees hold no tree. */
  lemma {:induction false} ConvertedWellFormed(e: Expr)
    requires WellFormed(e)
    ensures WellFormed(ToTree(e))
    decreases e
  {
    var t := ToTree(e);
    if |e.children| > 0 {
      forall i | 0 <= i < |t.children|
        ensures WellFormed(t.children[i])
      {
        if i > 0 {
          assert t.children[i] == ToTree(e.children[i - 1]);
          ConvertedWellFormed(e.children[i - 1]);
        }
      }
    }
  }

  /** A childless tree node is the one source the conversion cannot make
      well formed: it is copied into the result as it is. */
  lemma ChildlessTreeStaysMalformed(expanded: bool)
    ensures !WellFormed(ToTree(Expr(TreeKind(expanded), [])))
  {
    var e := Expr(TreeKind(expanded), []);
    assert ToTree(e).children[0] == e;
  }

  /** Every tree node of a converted well-formed expression has a sound layout
      in either orientation, whenever the other expressions measure soundly. */
  lemma ConvertedMeasurable(e: Expr, o: Layout.Orientation, leaf: Expr -> Layout.Extent)
    requires WellFormed(e)
    requires forall x :: Layout.Sound(leaf(x))
    ensures WellFormed(ToTree(e)) && Layout.Sound(Layout.Measure(ToTree(e), o, leaf))
  {
    ConvertedWellFormed(e);
    Layout.MeasureSound(ToTree(e), o, leaf);
  }

  // ---------------------------------------------------------------- reducer

  /** The outcome of a reducer: the expression that replaces the reduced one,
      and whether the reducer handled it. */
  datatype Reduced = Reduced(replacement: Expr, handled: bool)

  /** Diagramming.toTreeReducer: the ToTree call is replaced by the
      conversion of its first argument, and the reduction always succeeds. */
  function ToTreeReducer(call: Expr): (r: Reduced)
    requires |call.children| > 0
    ensures r.handled
    ensures Diagram(r.replacement)
    ensures Recover(r.replacement) == Some(OutlineOf(call.children[0]))
  {
    ConvertedIsDiagram(call.children[0]);
    RecoverToTree(call.children[0]);
    Reduced(ToTree(call.children[0]), true)
  }
}
