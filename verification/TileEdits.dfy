/**
 What each edit of the tree in crates/cambium/workbench/lib.rs does and what it leaves alone: one
 stack, named by its path, is replaced by another node, and every other node, axis, share and
 active tab stays. The paths are those of the source, child by child.
 */
module TileEdits {
  import opened Wrappers
  import opened TileTree
  import opened TileTheorems

  // ---------- Replacing one node ----------

  function Shares(bs: Branches): seq<real> {
    if bs.End? then [] else [bs.fraction] + Shares(bs.rest)
  }

  lemma {:induction false} ReadBelow(t: Tree, path: seq<nat>, node: Tree, below: seq<nat>)
    requires NodeAt(t, path).Some?
    ensures NodeAt(ReplaceAt(t, path, node), path + below) == NodeAt(node, below)
    decreases t, 0
  {
    if path == [] {
      assert path + below == below;
    } else {
      assert (path + below)[1..] == path[1..] + below && (path + below)[0] == path[0];
      ReadBelowIn(t.children, path[0], path[1..], node, below);
    }
  }

  lemma {:induction false} ReadBelowIn(bs: Branches, i: nat, path: seq<nat>, node: Tree, below: seq<nat>)
    requires NodeIn(bs, i, path).Some?
    ensures NodeIn(ReplaceIn(bs, i, path, node), i, path + below) == NodeAt(node, below)
    decreases bs, 1
  {
    if i == 0 { ReadBelow(bs.tree, path, node, below); } else { ReadBelowIn(bs.rest, i - 1, path, node, below); }
  }

  /** Two paths part: they go the same way for a while and then to different children. */
  ghost predicate Part(p: seq<nat>, q: seq<nat>) {
    p != [] && q != [] && (p[0] != q[0] || Part(p[1..], q[1..]))
  }

  lemma {:induction false} ReadBeside(t: Tree, path: seq<nat>, node: Tree, other: seq<nat>)
    requires Part(path, other)
    ensures NodeAt(ReplaceAt(t, path, node), other) == NodeAt(t, other)
    decreases t, 0
  {
    if t.Split? { ReadBesideIn(t.children, path[0], path[1..], node, other[0], other[1..]); }
  }

  lemma {:induction false} ReadBesideIn(bs: Branches, i: nat, path: seq<nat>, node: Tree, j: nat, other: seq<nat>)
    requires i != j || Part(path, other)
    ensures NodeIn(ReplaceIn(bs, i, path, node), j, other) == NodeIn(bs, j, other)
    decreases bs, 1
  {
    if bs.Branch? {
      if i == 0 && j == 0 {
        ReadBeside(bs.tree, path, node, other);
      } else if i > 0 && j > 0 {
        ReadBesideIn(bs.rest, i - 1, path, node, j - 1, other);
      }
    }
  }

  /** A split on the way keeps its axis and its shares. */
  lemma {:induction false} ReadAbove(t: Tree, path: seq<nat>, node: Tree, k: nat)
    requires NodeAt(t, path).Some? && k < |path|
    ensures var before := NodeAt(t, path[..k]); var after := NodeAt(ReplaceAt(t, path, node), path[..k]);
            && before.Some? && before.value.Split? && after.Some? && after.value.Split?
            && after.value.axis == before.value.axis && Shares(after.value.children) == Shares(before.value.children)
    decreases t, 0
  {
    if k == 0 {
      SharesStay(t.children, path[0], path[1..], node);
    } else {
      assert path[..k][1..] == path[1..][..k - 1];
      ReadAboveIn(t.children, path[0], path[1..], node, k - 1);
    }
  }

  lemma {:induction false} ReadAboveIn(bs: Branches, i: nat, path: seq<nat>, node: Tree, k: nat)
    requires NodeIn(bs, i, path).Some? && k < |path|
    ensures var before := NodeIn(bs, i, path[..k]); var after := NodeIn(ReplaceIn(bs, i, path, node), i, path[..k]);
            && before.Some? && before.value.Split? && after.Some? && after.value.Split?
            && after.value.axis == before.value.axis && Shares(after.value.children) == Shares(before.value.children)
    decreases bs, 1
  {
    if i == 0 { ReadAbove(bs.tree, path, node, k); } else { ReadAboveIn(bs.rest, i - 1, path, node, k); }
  }

  lemma {:induction false} SharesStay(bs: Branches, i: nat, path: seq<nat>, node: Tree)
    ensures Shares(ReplaceIn(bs, i, path, node)) == Shares(bs)
  {
    if bs.Branch? && i > 0 { SharesStay(bs.rest, i - 1, path, node); }
  }

  /**
   Exactly the node at a path changed: it is replaced, the splits above it keep axis and shares,
   and whatever lies beside its path is as it was.
   */
  ghost predicate OnlyAt(t: Tree, t': Tree, path: seq<nat>, before: Tree, after: Tree) {
    && NodeAt(t, path) == Some(before) && NodeAt(t', path) == Some(after)
    && (forall other :: Part(path, other) ==> NodeAt(t', other) == NodeAt(t, other))
    && (forall k :: 0 <= k < |path| ==> SameSplit(NodeAt(t, path[..k]), NodeAt(t', path[..k])))
  }

  ghost predicate SameSplit(a: Option<Tree>, b: Option<Tree>) {
    && a.Some? && b.Some? && a.value.Split? && b.value.Split?
    && a.value.axis == b.value.axis && Shares(a.value.children) == Shares(b.value.children)
  }

  lemma ReplaceIsOnlyAt(t: Tree, path: seq<nat>, node: Tree)
    requires NodeAt(t, path).Some?
    ensures OnlyAt(t, ReplaceAt(t, path, node), path, NodeAt(t, path).value, node)
  {
    ReadBelow(t, path, node, []);
    assert path + [] == path;
    forall other | Part(path, other) ensures NodeAt(ReplaceAt(t, path, node), other) == NodeAt(t, other) {
      ReadBeside(t, path, node, other);
    }
    forall k | 0 <= k < |path|
      ensures SameSplit(NodeAt(t, path[..k]), NodeAt(ReplaceAt(t, path, node), path[..k]))
    {
      ReadAbove(t, path, node, k);
    }
  }

  // ---------- Edits of the first stack that takes one ----------

  /** What becomes of a stack, or nothing if the edit does not concern it. */
  type Change = Tree -> Option<Tree>

  ghost function Firstly(t: Tree, change: Change): Option<Tree> {
    match t
    case Stack(_, _) => change(t)
    case Split(axis, children) =>
      var more := FirstlyIn(children, change);
      if more.Some? then Some(Split(axis, more.value)) else None
  }

  ghost function FirstlyIn(bs: Branches, change: Change): Option<Branches> {
    match bs
    case End => None
    case Branch(f, tree, rest) =>
      var here := Firstly(tree, change);
      if here.Some? then Some(Branch(f, here.value, rest))
      else
        var more := FirstlyIn(rest, change);
        if more.Some? then Some(Branch(f, tree, more.value)) else None
  }

  lemma {:induction false} FirstlyReplaces(t: Tree, change: Change) returns (path: seq<nat>)
    requires Firstly(t, change).Some?
    ensures NodeAt(t, path).Some? && NodeAt(t, path).value.Stack? && change(NodeAt(t, path).value).Some?
    ensures Firstly(t, change).value == ReplaceAt(t, path, change(NodeAt(t, path).value).value)
    decreases t, 0
  {
    if t.Stack? {
      path := [];
    } else {
      var i, rest := FirstlyReplacesIn(t.children, change);
      path := [i] + rest;
      assert path[1..] == rest;
    }
  }

  lemma {:induction false} FirstlyReplacesIn(bs: Branches, change: Change) returns (i: nat, path: seq<nat>)
    requires FirstlyIn(bs, change).Some?
    ensures NodeIn(bs, i, path).Some? && NodeIn(bs, i, path).value.Stack? && change(NodeIn(bs, i, path).value).Some?
    ensures FirstlyIn(bs, change).value == ReplaceIn(bs, i, path, change(NodeIn(bs, i, path).value).value)
    decreases bs, 1
  {
    if Firstly(bs.tree, change).Some? {
      i := 0;
      path := FirstlyReplaces(bs.tree, change);
    } else {
      i, path := FirstlyReplacesIn(bs.rest, change);
      i := i + 1;
    }
  }

  /** No stack takes the edit exactly when it does nothing. */
  lemma {:induction false} FirstlyNone(t: Tree, change: Change, path: seq<nat>)
    requires Firstly(t, change).None? && NodeAt(t, path).Some? && NodeAt(t, path).value.Stack?
    ensures change(NodeAt(t, path).value).None?
    decreases t, 0
  {
    if t.Split? { FirstlyNoneIn(t.children, change, path[0], path[1..]); }
  }

  lemma {:induction false} FirstlyNoneIn(bs: Branches, change: Change, i: nat, path: seq<nat>)
    requires FirstlyIn(bs, change).None? && NodeIn(bs, i, path).Some? && NodeIn(bs, i, path).value.Stack?
    ensures change(NodeIn(bs, i, path).value).None?
    decreases bs, 1
  {
    if i == 0 { FirstlyNone(bs.tree, change, path); } else { FirstlyNoneIn(bs.rest, change, i - 1, path); }
  }

  /** Some stack is changed, and only it; or no stack takes the change. */
  ghost predicate OneStack(t: Tree, t': Tree, change: Change, changed: bool) {
    if changed
    then exists path, before, after ::
           OnlyAt(t, t', path, before, after) && before.Stack? && change(before) == Some(after)
    else t' == t && forall path :: NodeAt(t, path).Some? && NodeAt(t, path).value.Stack? ==>
           change(NodeAt(t, path).value).None?
  }

  lemma FirstlyIsOneStack(t: Tree, change: Change)
    ensures var r := Firstly(t, change); OneStack(t, if r.Some? then r.value else t, change, r.Some?)
  {
    if Firstly(t, change).Some? {
      var path := FirstlyReplaces(t, change);
      ReplaceIsOnlyAt(t, path, change(NodeAt(t, path).value).value);
    } else {
      forall path | NodeAt(t, path).Some? && NodeAt(t, path).value.Stack? ensures change(NodeAt(t, path).value).None? {
        FirstlyNone(t, change, path);
      }
    }
  }

  // ---------- The edits ----------

  /** Where a stack first holds a tile. */
  ghost predicate HasAt(stack: Tree, id: TileId, i: nat) {
    && stack.Stack? && i < |stack.tabs| && stack.tabs[i].id == id
    && forall k :: 0 <= k < i ==> stack.tabs[k].id != id
  }

  /** A stack that holds the tile without showing it comes to show it. */
  function Showing(id: TileId): Change {
    (node: Tree) =>
      if node.Stack? && Position(node.tabs, id) < |node.tabs| && node.active != Position(node.tabs, id)
      then Some(Stack(node.tabs, Position(node.tabs, id))) else None
  }

  lemma {:induction false} ActivateIsFirstly(t: Tree, id: TileId)
    ensures var r := Firstly(t, Showing(id));
            Activate(t, id) == Edit(if r.Some? then r.value else t, r.Some?)
    decreases t, 0
  {
    if t.Split? { ActivateInIsFirstly(t.children, id); }
  }

  lemma {:induction false} ActivateInIsFirstly(bs: Branches, id: TileId)
    ensures var r := FirstlyIn(bs, Showing(id));
            ActivateIn(bs, id) == BranchesEdit(if r.Some? then r.value else bs, r.Some?)
    decreases bs, 1
  {
    if bs.Branch? {
      ActivateIsFirstly(bs.tree, id);
      ActivateInIsFirstly(bs.rest, id);
    }
  }

  /**
   Showing a tile: one stack that holds it and shows another comes to show it, and only that
   changes; or every stack that holds it shows it already and nothing does.
   */
  lemma ActivateShows(t: Tree, id: TileId)
    ensures Activate(t, id).changed ==>
              exists path, before, i: nat ::
                && HasAt(before, id, i) && before.active != i
                && OnlyAt(t, Activate(t, id).tree, path, before, Stack(before.tabs, i))
    ensures !Activate(t, id).changed ==>
              && Activate(t, id).tree == t
              && forall path, i: nat :: NodeAt(t, path).Some? && HasAt(NodeAt(t, path).value, id, i) ==>
                   NodeAt(t, path).value.active == i
  {
    ActivateIsFirstly(t, id);
    FirstlyIsOneStack(t, Showing(id));
    if Activate(t, id).changed {
      var path, before, after :| OnlyAt(t, Activate(t, id).tree, path, before, after) && before.Stack?
        && Showing(id)(before) == Some(after);
      assert HasAt(before, id, Position(before.tabs, id));
    } else {
      forall path, i: nat | NodeAt(t, path).Some? && HasAt(NodeAt(t, path).value, id, i)
        ensures NodeAt(t, path).value.active == i
      {
        var node := NodeAt(t, path).value;
        PositionUnique(node.tabs, id, i);
        assert Showing(id)(node).None?;
      }
    }
  }

  /** The two halves of a split made at an edge of a stack. */
  function Halves(stack: Tree, edge: Edge, tile: Tile): Tree {
    var alone := Stack([tile], 0);
    match edge
    case Left => Split(Row, Branch(0.5, alone, Branch(0.5, stack, End)))
    case Right => Split(Row, Branch(0.5, stack, Branch(0.5, alone, End)))
    case Top => Split(Column, Branch(0.5, alone, Branch(0.5, stack, End)))
    case Bottom => Split(Column, Branch(0.5, stack, Branch(0.5, alone, End)))
  }

  function Halving(target: TileId, edge: Edge, tile: Tile): Change {
    (node: Tree) =>
      if node.Stack? && Position(node.tabs, target) < |node.tabs| then Some(Halves(node, edge, tile)) else None
  }

  lemma {:induction false} SplitIsFirstly(t: Tree, target: TileId, edge: Edge, tile: Tile)
    ensures var r := Firstly(t, Halving(target, edge, tile));
            SplitAtTile(t, target, edge, tile) == Edit(if r.Some? then r.value else t, r.Some?)
    decreases t, 0
  {
    if t.Split? { SplitInIsFirstly(t.children, target, edge, tile); }
  }

  lemma {:induction false} SplitInIsFirstly(bs: Branches, target: TileId, edge: Edge, tile: Tile)
    ensures var r := FirstlyIn(bs, Halving(target, edge, tile));
            SplitIn(bs, target, edge, tile) == BranchesEdit(if r.Some? then r.value else bs, r.Some?)
    decreases bs, 1
  {
    if bs.Branch? {
      SplitIsFirstly(bs.tree, target, edge, tile);
      SplitInIsFirstly(bs.rest, target, edge, tile);
    }
  }

  /** Splitting at a tile: one stack that holds it becomes half of a split with the new tile, on the edge's side. */
  lemma SplitHalves(t: Tree, target: TileId, edge: Edge, tile: Tile)
    ensures var e := SplitAtTile(t, target, edge, tile);
            if e.changed
            then exists path, before, i: nat ::
                   HasAt(before, target, i) && OnlyAt(t, e.tree, path, before, Halves(before, edge, tile))
            else e.tree == t
  {
    SplitIsFirstly(t, target, edge, tile);
    FirstlyIsOneStack(t, Halving(target, edge, tile));
    var e := SplitAtTile(t, target, edge, tile);
    if e.changed {
      var path, before, after :| OnlyAt(t, e.tree, path, before, after) && before.Stack?
        && Halving(target, edge, tile)(before) == Some(after);
      assert HasAt(before, target, Position(before.tabs, target));
    }
  }

  function Tabbing(target: TileId, tile: Tile): Change {
    (node: Tree) =>
      if node.Stack? && Position(node.tabs, target) < |node.tabs|
      then var i := Position(node.tabs, target) + 1; Some(Stack(Inserted(node.tabs, i, tile), i))
      else None
  }

  lemma {:induction false} TabIsFirstly(t: Tree, target: TileId, tile: Tile)
    requires !Holds(t, tile.id)
    ensures var r := Firstly(t, Tabbing(target, tile));
            InsertTabAfter(t, target, tile) == Edit(if r.Some? then r.value else t, r.Some?)
    decreases t, 0
  {
    if t.Split? { TabInIsFirstly(t.children, target, tile); }
  }

  lemma {:induction false} TabInIsFirstly(bs: Branches, target: TileId, tile: Tile)
    requires Position(TilesOf(bs), tile.id) == |TilesOf(bs)|
    ensures var r := FirstlyIn(bs, Tabbing(target, tile));
            InsertTabIn(bs, target, tile) == BranchesEdit(if r.Some? then r.value else bs, r.Some?)
    decreases bs, 1
  {
    if bs.Branch? {
      PositionAppend(Tiles(bs.tree), TilesOf(bs.rest), tile.id);
      TabIsFirstly(bs.tree, target, tile);
      TabInIsFirstly(bs.rest, target, tile);
    }
  }

  /** A docked tab stands right after its target and is the one shown. */
  lemma TabIsShown(t: Tree, target: TileId, tile: Tile)
    ensures var e := InsertTabAfter(t, target, tile);
            if e.changed
            then exists path, before, after, i: nat ::
                   && HasAt(before, target, i) && OnlyAt(t, e.tree, path, before, after)
                   && after == Stack(Inserted(before.tabs, i + 1, tile), i + 1)
            else e.tree == t
  {
    if !Holds(t, tile.id) {
      TabIsFirstly(t, target, tile);
      FirstlyIsOneStack(t, Tabbing(target, tile));
      var e := InsertTabAfter(t, target, tile);
      if e.changed {
        var path, before, after :| OnlyAt(t, e.tree, path, before, after) && before.Stack?
          && Tabbing(target, tile)(before) == Some(after);
        assert HasAt(before, target, Position(before.tabs, target));
      }
    }
  }

  /** Which index stays active when a tab leaves: the same one, or the last. */
  function StillActive(active: nat, left: nat): nat {
    if active < left then active else if left == 0 then 0 else left - 1
  }

  function Leaving(id: TileId): Change {
    (node: Tree) =>
      if node.Stack? && Position(node.tabs, id) < |node.tabs|
      then var left := Without(node.tabs, Position(node.tabs, id)); Some(Stack(left, StillActive(node.active, |left|)))
      else None
  }

  lemma {:induction false} RemoveIsFirstly(t: Tree, id: TileId)
    ensures var r := Firstly(t, Leaving(id));
            RemoveTile(t, id).tree == (if r.Some? then r.value else t) && (RemoveTile(t, id).tile.Some? <==> r.Some?)
    decreases t, 0
  {
    if t.Split? { RemoveFromIsFirstly(t.children, id); }
  }

  lemma {:induction false} RemoveFromIsFirstly(bs: Branches, id: TileId)
    ensures var r := FirstlyIn(bs, Leaving(id));
            && RemoveFrom(bs, id).branches == (if r.Some? then r.value else bs)
            && (RemoveFrom(bs, id).tile.Some? <==> r.Some?)
    decreases bs, 1
  {
    if bs.Branch? {
      RemoveIsFirstly(bs.tree, id);
      RemoveFromIsFirstly(bs.rest, id);
    }
  }

  /** A tile leaves one stack that holds it; the stack keeps its active index, brought into range. */
  lemma RemovalIsLocal(t: Tree, id: TileId)
    requires RemoveTile(t, id).tile.Some?
    ensures exists path, before, after, i: nat ::
              && HasAt(before, id, i) && OnlyAt(t, RemoveTile(t, id).tree, path, before, after)
              && after == Stack(Without(before.tabs, i), StillActive(before.active, |before.tabs| - 1))
  {
    RemoveIsFirstly(t, id);
    FirstlyIsOneStack(t, Leaving(id));
    var path, before, after :| OnlyAt(t, RemoveTile(t, id).tree, path, before, after) && before.Stack?
      && Leaving(id)(before) == Some(after);
    assert HasAt(before, id, Position(before.tabs, id));
  }

  /**
   When a tab other than the shown one leaves, the shown tile stays shown exactly when it stood
   before that tab or was the last: the index is kept, not the tile.
   */
  lemma ShownStaysIff(tabs: seq<Tile>, active: nat, i: nat)
    requires active < |tabs| && i < |tabs| && i != active
    requires forall j, k :: 0 <= j < k < |tabs| ==> tabs[j].id != tabs[k].id
    ensures Without(tabs, i)[StillActive(active, |tabs| - 1)] == tabs[active] <==> active < i || active == |tabs| - 1
  {
    var left, now := Without(tabs, i), StillActive(active, |tabs| - 1);
    assert left[now] == if now < i then tabs[now] else tabs[now + 1];
    if !(active < i || active == |tabs| - 1) { assert tabs[active].id != tabs[active + 1].id; }
  }

  /** The first of three tabs is closed while the second is shown: the third is shown after. */
  lemma ClosingShiftsExample(a: Tile, b: Tile, c: Tile)
    requires a.id != b.id && b.id != c.id && a.id != c.id
    ensures ApplyTile(Stack([a, b, c], 1), Closed(a.id)).tree == Stack([b, c], 1)
  {
    var t := Stack([a, b, c], 1);
    PositionUnique(t.tabs, a.id, 0);
    assert Without(t.tabs, 0) == [b, c];
  }

  /** A tab dropped into a stack is the one shown there, at the place asked for or at the end. */
  lemma DropIsShown(t: Tree, path: seq<nat>, index: nat, tile: Tile)
    requires NodeAt(t, path).Some? && NodeAt(t, path).value.Stack?
    ensures var before := NodeAt(t, path).value;
            var i := if index <= |before.tabs| then index else |before.tabs|;
            OnlyAt(t, InsertAtPath(t, path, index, tile), path, before, Stack(Inserted(before.tabs, i, tile), i))
  {
    var before := NodeAt(t, path).value;
    var i := if index <= |before.tabs| then index else |before.tabs|;
    ReplaceIsOnlyAt(t, path, Stack(Inserted(before.tabs, i, tile), i));
  }

  ghost predicate IsStack(node: Option<Tree>) {
    node.Some? && node.value.Stack?
  }

  ghost function DroppedInto(stack: Tree, index: nat, tile: Tile): Tree {
    if stack.Stack? then
      var i := if index <= |stack.tabs| then index else |stack.tabs|;
      Stack(Inserted(stack.tabs, i, tile), i)
    else stack
  }

  /**
   A drag: the tile leaves its stack; a drop into a stack puts it there at the place asked for or at
   the end, shown; a drop on an edge halves the stack that holds the target, unless the target was
   the tile itself; and the tree collapses. Without the tile or the target nothing happens.
   */
  lemma DragMeans(t: Tree, id: TileId, to: DropTarget)
    ensures var e := Drag(t, id, to); var left := RemoveTile(t, id);
            && (e.changed <==>
                  && left.tile.Some?
                  && ((to.IntoStack? && IsStack(NodeAt(t, to.stack))) || (to.OntoEdge? && Holds(t, to.tile))))
            && (!e.changed ==> e.tree == t)
            && (e.changed && to.IntoStack? ==>
                  exists after, before, node ::
                    && e.tree == Collapse(after) && OnlyAt(left.tree, after, to.stack, before, node)
                    && before.Stack? && node == DroppedInto(before, to.index, left.tile.value))
            && (e.changed && to.OntoEdge? && Holds(left.tree, to.tile) ==>
                  exists after, path, before, i: nat ::
                    && e.tree == Collapse(after) && HasAt(before, to.tile, i)
                    && OnlyAt(left.tree, after, path, before, Halves(before, to.edge, left.tile.value)))
            && (e.changed && to.OntoEdge? && !Holds(left.tree, to.tile) ==> e.tree == Collapse(left.tree))
  {
    var left := RemoveTile(t, id);
    if left.tile.Some? {
      match to
      case IntoStack(path, index) =>
        if IsStack(NodeAt(t, path)) {
          RemoveKeepsStacks(t, id, path);
          DropIsShown(left.tree, path, index, left.tile.value);
          var before := NodeAt(left.tree, path).value;
          assert OnlyAt(left.tree, InsertAtPath(left.tree, path, index, left.tile.value), path, before,
                        DroppedInto(before, index, left.tile.value));
        }
      case OntoEdge(target, edge) =>
        SplitHalves(left.tree, target, edge, left.tile.value);
        SplitAtTilePlaces(left.tree, target, edge, left.tile.value);
      case Outside =>
    }
  }

  // ---------- Shares ----------

  /** The children without their shares. */
  ghost function Children(bs: Branches): seq<Tree> {
    if bs.End? then [] else [bs.tree] + Children(bs.rest)
  }

  lemma {:induction false} SetShares(bs: Branches, fractions: seq<real>)
    requires |fractions| == Count(bs)
    ensures Shares(WithFractions(bs, fractions)) == fractions && Children(WithFractions(bs, fractions)) == Children(bs)
  {
    if bs.Branch? { SetShares(bs.rest, fractions[1..]); }
  }

  lemma {:induction false} SameChildrenSameShares(a: Branches, b: Branches)
    requires Shares(a) == Shares(b) && Children(a) == Children(b)
    ensures a == b
  {
    if a.Branch? && b.Branch? {
      assert Shares(a)[1..] == Shares(a.rest) && Shares(b)[1..] == Shares(b.rest);
      assert Children(a)[1..] == Children(a.rest) && Children(b)[1..] == Children(b.rest);
      assert Shares(a)[0] == Shares(b)[0] && Children(a)[0] == Children(b)[0];
      SameChildrenSameShares(a.rest, b.rest);
    } else {
      assert |Shares(a)| == |Shares(b)|;
    }
  }

  lemma {:induction false} SharesCount(bs: Branches)
    ensures |Shares(bs)| == Count(bs) == |Children(bs)|
  {
    if bs.Branch? { SharesCount(bs.rest); }
  }

  /** Moving a divider sets exactly the shares of the addressed split; a wrong path or length changes nothing. */
  lemma DividerSetsShares(t: Tree, path: seq<nat>, fractions: seq<real>)
    ensures var node := NodeAt(t, path); var e := SetFractions(t, path, fractions);
            if node.Some? && node.value.Split? && |Shares(node.value.children)| == |fractions|
            then && (e.changed <==> Shares(node.value.children) != fractions)
                 && exists after ::
                      && OnlyAt(t, e.tree, path, node.value, after) && after.Split? && after.axis == node.value.axis
                      && Shares(after.children) == fractions
                      && Children(after.children) == Children(node.value.children)
            else e == Edit(t, false)
  {
    var node := NodeAt(t, path);
    if node.Some? && node.value.Split? {
      SharesCount(node.value.children);
      if Count(node.value.children) == |fractions| {
        var next := WithFractions(node.value.children, fractions);
        SetShares(node.value.children, fractions);
        if Shares(node.value.children) == fractions { SameChildrenSameShares(next, node.value.children); }
        ReplaceIsOnlyAt(t, path, Split(node.value.axis, next));
      }
    }
  }

  lemma {:induction false} ScaledShares(bs: Branches, sum: real, i: nat)
    requires sum != 0.0 && i < |Shares(bs)|
    ensures |Shares(Scaled(bs, sum))| == |Shares(bs)| && Shares(Scaled(bs, sum))[i] * sum == Shares(bs)[i]
    ensures Children(Scaled(bs, sum)) == Children(bs)
  {
    if i > 0 {
      ScaledShares(bs.rest, sum, i - 1);
    } else if bs.rest.Branch? {
      ScaledShares(bs.rest, sum, 0);
    }
  }

  lemma {:induction false} EvenedShares(bs: Branches, share: real, i: nat)
    requires i < |Shares(bs)|
    ensures |Shares(Evened(bs, share))| == |Shares(bs)| && Shares(Evened(bs, share))[i] == share
    ensures Children(Evened(bs, share)) == Children(bs)
  {
    if i > 0 {
      EvenedShares(bs.rest, share, i - 1);
    } else if bs.rest.Branch? {
      EvenedShares(bs.rest, share, 0);
    }
  }

  /** Renormalising keeps the children and the proportions of their shares; without a sum to go by, all are equal. */
  lemma NormalizedKeepsProportions(bs: Branches, i: nat, j: nat)
    requires i < |Shares(bs)| && j < |Shares(bs)|
    ensures |Shares(Normalized(bs))| == |Shares(bs)| && Children(Normalized(bs)) == Children(bs)
    ensures var old', now := Shares(bs), Shares(Normalized(bs));
            if FractionSum(bs) > EPSILON then now[i] * old'[j] == now[j] * old'[i] else now[i] == now[j]
  {
    var sum := FractionSum(bs);
    if sum > EPSILON {
      ScaledShares(bs, sum, i);
      ScaledShares(bs, sum, j);
      var a, b := Shares(Scaled(bs, sum))[i], Shares(Scaled(bs, sum))[j];
      assert a * (b * sum) == b * (a * sum);
    } else {
      var share := 1.0 / (Count(bs) as real);
      EvenedShares(bs, share, i);
      EvenedShares(bs, share, j);
    }
  }

  // ---------- Collapsing ----------

  /** The stacks that hold something, in document order. */
  ghost function Stacks(t: Tree): seq<Tree> {
    match t
    case Stack(tabs, _) => if tabs == [] then [] else [t]
    case Split(_, children) => StacksOf(children)
  }

  ghost function StacksOf(bs: Branches): seq<Tree> {
    if bs.End? then [] else Stacks(bs.tree) + StacksOf(bs.rest)
  }

  lemma {:induction false} RetainedKeepsStacks(bs: Branches)
    ensures StacksOf(Retained(bs)) == StacksOf(bs)
  {
    if bs.Branch? { RetainedKeepsStacks(bs.rest); }
  }

  lemma {:induction false} ScaledKeepsStacks(bs: Branches, sum: real)
    requires sum != 0.0
    ensures StacksOf(Scaled(bs, sum)) == StacksOf(bs)
  {
    if bs.Branch? { ScaledKeepsStacks(bs.rest, sum); }
  }

  lemma {:induction false} EvenedKeepsStacks(bs: Branches, share: real)
    ensures StacksOf(Evened(bs, share)) == StacksOf(bs)
  {
    if bs.Branch? { EvenedKeepsStacks(bs.rest, share); }
  }

  lemma NormalizedKeepsStacks(bs: Branches)
    ensures StacksOf(Normalized(bs)) == StacksOf(bs)
  {
    var sum := FractionSum(bs);
    if sum > EPSILON {
      ScaledKeepsStacks(bs, sum);
    } else if bs.Branch? {
      EvenedKeepsStacks(bs, 1.0 / (Count(bs) as real));
    }
  }

  /** Collapsing keeps every stack that holds something, its tabs and its active tab, in order. */
  lemma {:induction false} CollapseKeepsStacks(t: Tree)
    ensures Stacks(Collapse(t)) == Stacks(t)
    decreases t, 0
  {
    if t.Split? {
      var all := CollapseAll(t.children);
      CollapseAllKeepsStacks(t.children);
      RetainedKeepsStacks(all);
      NormalizedKeepsStacks(Retained(all));
    }
  }

  lemma {:induction false} CollapseAllKeepsStacks(bs: Branches)
    ensures StacksOf(CollapseAll(bs)) == StacksOf(bs)
    decreases bs, 1
  {
    if bs.Branch? {
      CollapseKeepsStacks(bs.tree);
      CollapseAllKeepsStacks(bs.rest);
    }
  }
}
