/** Formulae expressions as values: a kind (which carries the kind's own
    attribute) and an ordered sequence of children. Only the three kinds the
    diagramming package looks at are distinguished; every other kind is
    `Other(tag)`. */
module Expressions {

  const TreeTag: string := "Diagramming.Tree"
  const StringTag: string := "String.String"

  datatype Kind =
    | TreeKind(expanded: bool)      // Diagramming.Tree with its expansion flag
    | StringKind(value: string)     // String.String with its Value attribute
    | Other(tag: string)            // any other expression kind

  datatype Expr = Expr(kind: Kind, children: seq<Expr>)

  /** The expression's tag, as getTag() reports it. */
  function Tag(k: Kind): (t: string)
    ensures k.TreeKind? ==> t == TreeTag
    ensures k.StringKind? ==> t == StringTag
  {
    match k
    case TreeKind(_) => TreeTag
    case StringKind(_) => StringTag
    case Other(tag) => tag
  }

  /** A tree node accepts a child count only when it is positive
      (canHaveChildren); this holds at every node of a well-formed expression. */
  predicate WellFormed(e: Expr)
    decreases e
  {
    (e.kind.TreeKind? ==> |e.children| > 0) &&
    forall i :: 0 <= i < |e.children| ==> WellFormed(e.children[i])
  }
}
