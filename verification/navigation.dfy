/** Where keyboard focus goes from and into a tree node. The node's children
    are indexed 0 (the content) .. n-1; the answer is a tag standing for the
    call the node makes: a child's own moveTo, or the node's moveOut, or the
    node itself. */
module Navigation {
  import opened Layout

  datatype Direction = Previous | Next | Up | Down

  datatype Target =
    | Child(index: nat, direction: Direction)   // children[index].moveTo(direction)
    | MoveOut(direction: Direction)             // this.moveOut(direction)
    | Self                                      // focus stays on the node itself

  /** moveAcrossHorizontal: the content sits above a row of branches. Previous
      and Next move along the row, Up climbs into the content, Down enters the
      first branch; anything without a target inside the node moves out. */
  function MoveAcrossHorizontal(n: nat, index: nat, d: Direction): (r: Target)
    requires index < n
    ensures r.Child? ==> r.index < n && r.direction == d
    ensures r.MoveOut? ==> r.direction == d
    ensures !r.Self?
    ensures d == Previous ==> (r.Child? <==> index > 1) && (r.Child? ==> r.index == index - 1)
    ensures d == Next ==> (r.Child? <==> 0 < index < n - 1) && (r.Child? ==> r.index == index + 1)
    ensures d == Up ==> (r.Child? <==> index > 0) && (r.Child? ==> r.index == 0)
    ensures d == Down ==> (r.Child? <==> index == 0 && n > 1) && (r.Child? ==> r.index == 1)
  {
    match d
    case Previous => if index > 1 then Child(index - 1, d) else MoveOut(d)
    case Next => if index > 0 && index < n - 1 then Child(index + 1, d) else MoveOut(d)
    case Up => if index > 0 then Child(0, d) else MoveOut(d)
    case Down => if index == 0 && n > 1 then Child(1, d) else MoveOut(d)
  }

  /** moveAcrossVertical: the content and the branches form one column. Up and
      Previous go to the child before, Down and Next to the child after. */
  function MoveAcrossVertical(n: nat, index: nat, d: Direction): (r: Target)
    requires index < n
    ensures r.Child? ==> r.index < n && r.direction == d
    ensures r.MoveOut? ==> r.direction == d
    ensures !r.Self?
    ensures (d == Up || d == Previous) ==> (r.Child? <==> index > 0) && (r.Child? ==> r.index == index - 1)
    ensures (d == Down || d == Next) ==> (r.Child? <==> index < n - 1) && (r.Child? ==> r.index == index + 1)
  {
    match d
    case Up => if index > 0 then Child(index - 1, d) else MoveOut(d)
    case Down => if index < n - 1 then Child(index + 1, d) else MoveOut(d)
    case Previous => if index > 0 then Child(index - 1, d) else MoveOut(d)
    case Next => if index < n - 1 then Child(index + 1, d) else MoveOut(d)
  }

  /** moveAcross: the orientation chooses the table. */
  function MoveAcross(o: Orientation, n: nat, index: nat, d: Direction): (r: Target)
    requires index < n
    ensures r.Child? ==> r.index < n && r.index != index && r.direction == d
    ensures r.MoveOut? ==> r.direction == d
    ensures !r.Self?
  {
    if o == Horizontal then MoveAcrossHorizontal(n, index, d) else MoveAcrossVertical(n, index, d)
  }

  /** moveToHorizontal: a collapsed node takes the focus itself; an expanded
      one hands it to its content, whatever the direction. */
  function MoveToHorizontal(n: nat, expanded: bool, d: Direction): (r: Target)
    requires n > 0
    ensures r.Self? <==> !expanded
    ensures r.Child? ==> r.index == 0 && r.direction == d
    ensures !r.MoveOut?
  {
    if !expanded then Self else Child(0, d)
  }

  /** moveToVertical: a collapsed node takes the focus itself; focus arriving
      upwards enters the last child, from any other direction the first. */
  function MoveToVertical(n: nat, expanded: bool, d: Direction): (r: Target)
    requires n > 0
    ensures r.Self? <==> !expanded
    ensures r.Child? ==> r.index == (if d == Up then n - 1 else 0) && r.direction == d
    ensures !r.MoveOut?
  {
    if !expanded then Self
    else if d == Up then Child(n - 1, d)
    else Child(0, d)
  }

  /** moveTo: the orientation chooses the rule. */
  function MoveTo(o: Orientation, n: nat, expanded: bool, d: Direction): (r: Target)
    requires n > 0
    ensures r.Self? <==> !expanded
    ensures r.Child? ==> r.index < n && r.direction == d
    ensures !r.MoveOut?
  {
    if o == Horizontal then MoveToHorizontal(n, expanded, d) else MoveToVertical(n, expanded, d)
  }

  /** The opposite of a direction. */
  function Opposite(d: Direction): (e: Direction)
    ensures e != d
  {
    match d
    case Previous => Next
    case Next => Previous
    case Up => Down
    case Down => Up
  }

  /** Moving back the way one came returns to the child one left, in both
      orientations, for every move that stays inside the node, except climbing
      Up in the horizontal layout from a branch other than the first (Down
      from the content always enters the first branch). */
  lemma MoveAcrossReturns(o: Orientation, n: nat, index: nat, d: Direction)
    requires index < n
    requires MoveAcross(o, n, index, d).Child?
    requires !(o == Horizontal && d == Up && index != 1)
    ensures MoveAcross(o, n, MoveAcross(o, n, index, d).index, Opposite(d)) == Child(index, Opposite(d))
  {
  }

  /** In the vertical layout Up and Previous are synonyms, and so are Down and
      Next: they reach the same child, only the direction passed on differs. */
  lemma VerticalSynonyms(n: nat, index: nat)
    requires index < n
    ensures MoveAcrossVertical(n, index, Up).Child? == MoveAcrossVertical(n, index, Previous).Child?
    ensures MoveAcrossVertical(n, index, Up).Child? ==>
      MoveAcrossVertical(n, index, Up).index == MoveAcrossVertical(n, index, Previous).index
    ensures MoveAcrossVertical(n, index, Down).Child? == MoveAcrossVertical(n, index, Next).Child?
    ensures MoveAcrossVertical(n, index, Down).Child? ==>
      MoveAcrossVertical(n, index, Down).index == MoveAcrossVertical(n, index, Next).index
  {
  }

  /** Focus entering an expanded node lands on a child from which turning
      straight back leaves the node again, except in two cases with branches:
      arriving Up in the horizontal layout lands on the content, above the
      branches, and arriving Previous in the vertical layout lands on the first
      child, not the last (only Up is treated as arriving from below). */
  lemma EntryFacesArrival(o: Orientation, n: nat, d: Direction)
    requires n > 0
    ensures MoveTo(o, n, true, d).Child?
    ensures MoveAcross(o, n, MoveTo(o, n, true, d).index, Opposite(d)) == MoveOut(Opposite(d)) <==>
      n == 1 || !((o == Horizontal && d == Up) || (o == Vertical && d == Previous))
  {
  }
}
