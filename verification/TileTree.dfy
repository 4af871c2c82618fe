/**
 The split-and-tab tree of crates/cambium/workbench/lib.rs and its edits. The source edits an
 owned tree in place; nothing else can hold a node of it, so an edit is modelled as the tree
 it leaves behind. A split's vector of branches is a list, so that recursion follows the data.
 Fractions are real numbers, and what a tile shows is opaque here.
 */
module TileTree {
  import opened Wrappers
  import First

  type TileId = nat

  datatype Tile = Tile(id: TileId, content: nat)

  datatype Axis = Row | Column

  datatype Edge = Left | Right | Top | Bottom

  datatype Tree =
    | Split(axis: Axis, children: Branches)
    | Stack(tabs: seq<Tile>, active: nat)

  datatype Branches = End | Branch(fraction: real, tree: Tree, rest: Branches)

  const EMPTY: Tree := Stack([], 0)

  function Count(bs: Branches): nat {
    if bs.End? then 0 else 1 + Count(bs.rest)
  }

  /** Every tile in document order. */
  function Tiles(t: Tree): seq<Tile> {
    match t
    case Stack(tabs, _) => tabs
    case Split(_, children) => TilesOf(children)
  }

  function TilesOf(bs: Branches): seq<Tile> {
    if bs.End? then [] else Tiles(bs.tree) + TilesOf(bs.rest)
  }

  // ---------- Places in a list of tiles ----------

  function HasId(id: TileId): Tile -> bool {
    (tile: Tile) => tile.id == id
  }

  /** The first place holding `id`, or the length. */
  function Position(tabs: seq<Tile>, id: TileId): (i: nat)
    ensures i <= |tabs|
    ensures i < |tabs| ==> tabs[i].id == id
    ensures forall k :: 0 <= k < i ==> tabs[k].id != id
  {
    First.Where(tabs, HasId(id))
  }

  function Without(tabs: seq<Tile>, i: nat): seq<Tile>
    requires i < |tabs|
  {
    tabs[..i] + tabs[i + 1..]
  }

  function Inserted(tabs: seq<Tile>, i: nat, tile: Tile): seq<Tile>
    requires i <= |tabs|
  {
    tabs[..i] + [tile] + tabs[i..]
  }

  // ---------- Edits ----------

  datatype Removal = Removal(tree: Tree, tile: Option<Tile>)

  datatype BranchesRemoval = BranchesRemoval(branches: Branches, tile: Option<Tile>)

  /** Take a tile out of its stack, keeping the active index in range; no collapsing. */
  function RemoveTile(t: Tree, id: TileId): Removal {
    match t
    case Stack(tabs, active) =>
      var i := Position(tabs, id);
      if i == |tabs| then Removal(t, None)
      else
        var left := Without(tabs, i);
        Removal(Stack(left, if active >= |left| then (if |left| == 0 then 0 else |left| - 1) else active),
                Some(tabs[i]))
    case Split(axis, children) =>
      var r := RemoveFrom(children, id);
      Removal(Split(axis, r.branches), r.tile)
  }

  function RemoveFrom(bs: Branches, id: TileId): BranchesRemoval {
    match bs
    case End => BranchesRemoval(End, None)
    case Branch(f, tree, rest) =>
      var r := RemoveTile(tree, id);
      if r.tile.Some? then BranchesRemoval(Branch(f, r.tree, rest), r.tile)
      else
        var more := RemoveFrom(rest, id);
        BranchesRemoval(Branch(f, tree, more.branches), more.tile)
  }

  datatype Edit = Edit(tree: Tree, changed: bool)

  datatype BranchesEdit = BranchesEdit(branches: Branches, changed: bool)

  function Activate(t: Tree, id: TileId): Edit {
    match t
    case Stack(tabs, active) =>
      var i := Position(tabs, id);
      if i < |tabs| && active != i then Edit(Stack(tabs, i), true) else Edit(t, false)
    case Split(axis, children) =>
      var e := ActivateIn(children, id);
      Edit(Split(axis, e.branches), e.changed)
  }

  function ActivateIn(bs: Branches, id: TileId): BranchesEdit {
    match bs
    case End => BranchesEdit(End, false)
    case Branch(f, tree, rest) =>
      var e := Activate(tree, id);
      if e.changed then BranchesEdit(Branch(f, e.tree, rest), true)
      else
        var more := ActivateIn(rest, id);
        BranchesEdit(Branch(f, tree, more.branches), more.changed)
  }

  predicate Holds(t: Tree, id: TileId) {
    Position(Tiles(t), id) < |Tiles(t)|
  }

  /** Join the stack of `target` right after it, as the active tab. */
  function InsertTabAfter(t: Tree, target: TileId, tile: Tile): Edit {
    if Holds(t, tile.id) then Edit(t, false)
    else match t {
      case Stack(tabs, _) =>
        var i := Position(tabs, target);
        if i < |tabs| then Edit(Stack(Inserted(tabs, i + 1, tile), i + 1), true) else Edit(t, false)
      case Split(axis, children) =>
        var e := InsertTabIn(children, target, tile);
        Edit(Split(axis, e.branches), e.changed)
    }
  }

  function InsertTabIn(bs: Branches, target: TileId, tile: Tile): BranchesEdit {
    match bs
    case End => BranchesEdit(End, false)
    case Branch(f, tree, rest) =>
      var e := InsertTabAfter(tree, target, tile);
      if e.changed then BranchesEdit(Branch(f, e.tree, rest), true)
      else
        var more := InsertTabIn(rest, target, tile);
        BranchesEdit(Branch(f, tree, more.branches), more.changed)
  }

  predicate Leading(edge: Edge) { edge == Left || edge == Top }

  /** Wrap the stack holding `target` in a half-and-half split with `tile` on `edge`'s side. */
  function SplitAtTile(t: Tree, target: TileId, edge: Edge, tile: Tile): Edit {
    match t
    case Stack(tabs, _) =>
      if Position(tabs, target) == |tabs| then Edit(t, false)
      else
        var axis := if edge == Left || edge == Right then Row else Column;
        var single := Stack([tile], 0);
        if Leading(edge) then Edit(Split(axis, Branch(0.5, single, Branch(0.5, t, End))), true)
        else Edit(Split(axis, Branch(0.5, t, Branch(0.5, single, End))), true)
    case Split(axis, children) =>
      var e := SplitIn(children, target, edge, tile);
      Edit(Split(axis, e.branches), e.changed)
  }

  function SplitIn(bs: Branches, target: TileId, edge: Edge, tile: Tile): BranchesEdit {
    match bs
    case End => BranchesEdit(End, false)
    case Branch(f, tree, rest) =>
      var e := SplitAtTile(tree, target, edge, tile);
      if e.changed then BranchesEdit(Branch(f, e.tree, rest), true)
      else
        var more := SplitIn(rest, target, edge, tile);
        BranchesEdit(Branch(f, tree, more.branches), more.changed)
  }

  /** Split `tile` out beside `target`; refused when the target is absent or the tile present. */
  function SplitBeside(t: Tree, target: TileId, edge: Edge, tile: Tile): Edit {
    if !Holds(t, target) || Holds(t, tile.id) then Edit(t, false) else SplitAtTile(t, target, edge, tile)
  }

  // ---------- Paths ----------

  /** The node a path of child indices leads to. */
  function NodeAt(t: Tree, path: seq<nat>): Option<Tree> {
    if path == [] then Some(t)
    else if t.Split? then NodeIn(t.children, path[0], path[1..])
    else None
  }

  function NodeIn(bs: Branches, i: nat, path: seq<nat>): Option<Tree> {
    match bs
    case End => None
    case Branch(_, tree, rest) => if i == 0 then NodeAt(tree, path) else NodeIn(rest, i - 1, path)
  }

  /** The tree with the node at a path replaced, if the path leads anywhere. */
  function ReplaceAt(t: Tree, path: seq<nat>, node: Tree): Tree {
    if path == [] then node
    else if t.Split? then Split(t.axis, ReplaceIn(t.children, path[0], path[1..], node))
    else t
  }

  function ReplaceIn(bs: Branches, i: nat, path: seq<nat>, node: Tree): Branches {
    match bs
    case End => End
    case Branch(f, tree, rest) =>
      if i == 0 then Branch(f, ReplaceAt(tree, path, node), rest)
      else Branch(f, tree, ReplaceIn(rest, i - 1, path, node))
  }

  // ---------- Canonicalisation ----------

  function FractionSum(bs: Branches): real {
    if bs.End? then 0.0 else bs.fraction + FractionSum(bs.rest)
  }

  const EPSILON: real := 1.0 / 8388608.0

  function Scaled(bs: Branches, sum: real): Branches
    requires sum != 0.0
  {
    match bs case End => End case Branch(f, tree, rest) => Branch(f / sum, tree, Scaled(rest, sum))
  }

  function Evened(bs: Branches, share: real): Branches {
    match bs case End => End case Branch(_, tree, rest) => Branch(share, tree, Evened(rest, share))
  }

  /** Renormalised shares; equal ones when the sum is degenerate. */
  function Normalized(bs: Branches): Branches {
    var sum := FractionSum(bs);
    if sum > EPSILON then Scaled(bs, sum)
    else if bs.End? then End
    else Evened(bs, 1.0 / (Count(bs) as real))
  }

  predicate IsEmptyStack(t: Tree) {
    t.Stack? && t.tabs == []
  }

  function Retained(bs: Branches): Branches {
    match bs
    case End => End
    case Branch(f, tree, rest) => if IsEmptyStack(tree) then Retained(rest) else Branch(f, tree, Retained(rest))
  }

  /** Drop empty stacks, renormalise, and flatten a split left with one child. */
  function Collapse(t: Tree): Tree {
    match t
    case Stack(_, _) => t
    case Split(axis, children) =>
      var kept := Normalized(Retained(CollapseAll(children)));
      if kept.Branch? && kept.rest.End? then kept.tree else Split(axis, kept)
  }

  function CollapseAll(bs: Branches): Branches {
    match bs
    case End => End
    case Branch(f, tree, rest) => Branch(f, Collapse(tree), CollapseAll(rest))
  }

  // ---------- Events ----------

  datatype DropTarget =
    | IntoStack(stack: seq<nat>, index: nat)
    | OntoEdge(tile: TileId, edge: Edge)
    | Outside

  datatype TileEvent =
    | Activated(id: TileId)
    | Closed(id: TileId)
    | Dragged(tile: TileId, to: DropTarget)
    | DividerMoved(split: seq<nat>, fractions: seq<real>)

  predicate TargetOk(t: Tree, to: DropTarget) {
    match to
    case IntoStack(stack, _) => NodeAt(t, stack).Some? && NodeAt(t, stack).value.Stack?
    case OntoEdge(tile, _) => Holds(t, tile)
    case Outside => false
  }

  /** Insert into the stack at a path, if one is still there, and show the tile. */
  function InsertAtPath(t: Tree, path: seq<nat>, index: nat, tile: Tile): Tree {
    var node := NodeAt(t, path);
    if node.Some? && node.value.Stack? then
      var tabs := node.value.tabs;
      var i := if index <= |tabs| then index else |tabs|;
      ReplaceAt(t, path, Stack(Inserted(tabs, i, tile), i))
    else t
  }

  function Drag(t: Tree, id: TileId, to: DropTarget): Edit {
    if !TargetOk(t, to) then Edit(t, false)
    else
      var r := RemoveTile(t, id);
      if r.tile.None? then Edit(t, false)
      else
        match to
        case IntoStack(stack, index) => Edit(Collapse(InsertAtPath(r.tree, stack, index, r.tile.value)), true)
        case OntoEdge(target, edge) => Edit(Collapse(SplitAtTile(r.tree, target, edge, r.tile.value).tree), true)
        case Outside => Edit(r.tree, false)
  }

  function WithFractions(bs: Branches, fractions: seq<real>): Branches {
    if bs.End? || fractions == [] then bs
    else Branch(fractions[0], bs.tree, WithFractions(bs.rest, fractions[1..]))
  }

  function SetFractions(t: Tree, path: seq<nat>, fractions: seq<real>): Edit {
    var node := NodeAt(t, path);
    if node.Some? && node.value.Split? && Count(node.value.children) == |fractions| then
      var next := WithFractions(node.value.children, fractions);
      Edit(ReplaceAt(t, path, Split(node.value.axis, next)), next != node.value.children)
    else Edit(t, false)
  }

  /** One gesture applied to the tree. */
  function ApplyTile(t: Tree, event: TileEvent): Edit {
    match event
    case Activated(id) => Activate(t, id)
    case Closed(id) =>
      var r := RemoveTile(t, id);
      if r.tile.Some? then Edit(Collapse(r.tree), true) else Edit(t, false)
    case DividerMoved(split, fractions) => SetFractions(t, split, fractions)
    case Dragged(tile, to) => Drag(t, tile, to)
  }
}
