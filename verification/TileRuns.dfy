/**
 The tile reducer of crates/cambium/workbench/lib.rs over whole runs: from any canonical tree
 with unique ids, every gesture leaves a canonical tree with unique ids, and only closing a
 tile, or dropping it on its own edge, makes one disappear.
 */
module TileRuns {
  import opened TileTree
  import opened TileTheorems

  // ---------- One station per tile ----------

  /** Each id occurs at most once. */
  ghost predicate OncePerId(tiles: seq<Tile>) {
    forall i, j :: 0 <= i < j < |tiles| ==> tiles[i].id != tiles[j].id
  }

  lemma HeldSomewhere(tabs: seq<Tile>, id: TileId)
    ensures Position(tabs, id) < |tabs| <==> exists i :: 0 <= i < |tabs| && tabs[i].id == id
  {
  }

  lemma OnceWithout(tabs: seq<Tile>, p: nat)
    requires OncePerId(tabs) && p < |tabs|
    ensures OncePerId(Without(tabs, p))
    ensures Position(Without(tabs, p), tabs[p].id) == |tabs| - 1
  {
    var left := Without(tabs, p);
    forall k | 0 <= k < |left| ensures left[k].id != tabs[p].id {
      if k < p { assert left[k] == tabs[k]; } else { assert left[k] == tabs[k + 1]; }
    }
  }

  lemma OthersStay(tabs: seq<Tile>, p: nat, id: TileId)
    requires p < |tabs| && tabs[p].id != id && Position(tabs, id) < |tabs|
    ensures Position(Without(tabs, p), id) < |tabs| - 1
  {
    var left := Without(tabs, p);
    var q := Position(tabs, id);
    assert if q < p then left[q] == tabs[q] else left[q - 1] == tabs[q];
    HeldSomewhere(left, id);
  }

  lemma OnceInserted(tabs: seq<Tile>, k: nat, tile: Tile)
    requires OncePerId(tabs) && k <= |tabs| && Position(tabs, tile.id) == |tabs|
    ensures OncePerId(Inserted(tabs, k, tile))
  {
    var all := Inserted(tabs, k, tile);
    assert forall i :: 0 <= i < |tabs| ==> tabs[i].id != tile.id;
    assert all[k] == tile;
    assert forall i :: 0 <= i < k ==> all[i] == tabs[i];
    assert forall i :: k < i < |all| ==> all[i] == tabs[i - 1];
  }

  lemma MoveKeepsTiles(tabs: seq<Tile>, p: nat, k: nat)
    requires p < |tabs| && k <= |tabs| - 1
    ensures multiset(Inserted(Without(tabs, p), k, tabs[p])) == multiset(tabs)
  {
    var left, x := Without(tabs, p), tabs[p];
    assert left == left[..k] + left[k..];
    assert multiset(Inserted(left, k, x)) == multiset(left[..k]) + multiset{x} + multiset(left[k..]);
    assert multiset(left) == multiset(left[..k]) + multiset(left[k..]);
    assert tabs == tabs[..p] + [x] + tabs[p + 1..];
    assert multiset(left) == multiset(tabs[..p]) + multiset(tabs[p + 1..]);
    assert multiset(tabs) == multiset(left) + multiset{x};
    assert multiset(Inserted(left, k, x)) == multiset(left) + multiset{x};
  }

  // ---------- One gesture ----------

  /** The one gesture besides closing that loses a tile. */
  predicate OntoItself(event: TileEvent) {
    event.Dragged? && event.to.OntoEdge? && event.to.tile == event.tile
  }

  /** Whether the gesture takes a tile out of the tree. */
  predicate Discards(t: Tree, event: TileEvent) {
    || (event.Closed? && Holds(t, event.id))
    || (OntoItself(event) && Holds(t, event.tile))
  }

  function Subject(event: TileEvent): TileId
    requires event.Closed? || event.Dragged?
  {
    if event.Closed? then event.id else event.tile
  }

  lemma CloseApplies(t: Tree, id: TileId)
    requires Canonical(t)
    ensures Canonical(ApplyTile(t, Closed(id)).tree)
    ensures var p := Position(Tiles(t), id);
            Tiles(ApplyTile(t, Closed(id)).tree) == if p < |Tiles(t)| then Without(Tiles(t), p) else Tiles(t)
  {
    RemoveTileTakes(t, id);
    if Holds(t, id) {
      var r := RemoveTile(t, id);
      RemoveTileShape(t, id);
      CollapseKeepsTiles(r.tree);
      CollapseCanonical(r.tree);
    }
  }

  lemma DropApplies(t: Tree, id: TileId, stack: seq<nat>, index: nat) returns (k: nat)
    requires Canonical(t) && Holds(t, id) && TargetOk(t, IntoStack(stack, index))
    ensures Canonical(Drag(t, id, IntoStack(stack, index)).tree)
    ensures var p := Position(Tiles(t), id);
            && k <= |Tiles(t)| - 1
            && Tiles(Drag(t, id, IntoStack(stack, index)).tree) == Inserted(Without(Tiles(t), p), k, Tiles(t)[p])
  {
    RemoveTileTakes(t, id);
    RemoveTileShape(t, id);
    var r := RemoveTile(t, id);
    RemoveKeepsStacks(t, id, stack);
    var tabs := NodeAt(r.tree, stack).value.tabs;
    var i := if index <= |tabs| then index else |tabs|;
    k := DropPlaces(r.tree, stack, i, r.tile.value);
    var placed := InsertAtPath(r.tree, stack, index, r.tile.value);
    CollapseKeepsTiles(placed);
    CollapseCanonical(placed);
  }

  lemma EdgeShape(t: Tree, id: TileId, target: TileId, edge: Edge)
    requires Canonical(t) && Holds(t, id) && Holds(t, target)
    ensures Canonical(Drag(t, id, OntoEdge(target, edge)).tree)
    ensures var r := RemoveTile(t, id);
            && r.tile.Some?
            && Tiles(Drag(t, id, OntoEdge(target, edge)).tree)
                == Tiles(SplitAtTile(r.tree, target, edge, r.tile.value).tree)
  {
    RemoveTileTakes(t, id);
    RemoveTileShape(t, id);
    var r := RemoveTile(t, id);
    SplitAtTileShape(r.tree, target, edge, r.tile.value);
    var placed := SplitAtTile(r.tree, target, edge, r.tile.value).tree;
    CollapseKeepsTiles(placed);
    CollapseCanonical(placed);
  }

  lemma EdgeApplies(t: Tree, id: TileId, target: TileId, edge: Edge) returns (k: nat)
    requires Canonical(t) && Holds(t, id) && Holds(t, target) && target != id
    ensures var p := Position(Tiles(t), id);
            && k <= |Tiles(t)| - 1
            && Tiles(Drag(t, id, OntoEdge(target, edge)).tree) == Inserted(Without(Tiles(t), p), k, Tiles(t)[p])
  {
    EdgeShape(t, id, target, edge);
    RemoveTileTakes(t, id);
    var r := RemoveTile(t, id);
    OthersStay(Tiles(t), Position(Tiles(t), id), target);
    SplitAtTilePlaces(r.tree, target, edge, r.tile.value);
    k := SplitPlace(r.tree, target, edge);
  }

  lemma OwnEdgeApplies(t: Tree, id: TileId, edge: Edge)
    requires Canonical(t) && OncePerId(Tiles(t)) && Holds(t, id)
    ensures Tiles(Drag(t, id, OntoEdge(id, edge)).tree) == Without(Tiles(t), Position(Tiles(t), id))
  {
    EdgeShape(t, id, id, edge);
    RemoveTileTakes(t, id);
    var r := RemoveTile(t, id);
    OnceWithout(Tiles(t), Position(Tiles(t), id));
    SplitAtTilePlaces(r.tree, id, edge, r.tile.value);
  }

  /**
   One gesture on a canonical tree with unique ids: the tree stays canonical, ids stay unique,
   the tiles are the same unless the gesture discards one, and then exactly that one is gone.
   */
  lemma GestureKeepsStations(t: Tree, event: TileEvent)
    requires Canonical(t) && OncePerId(Tiles(t))
    ensures var t' := ApplyTile(t, event).tree;
            && Canonical(t') && OncePerId(Tiles(t'))
            && (!Discards(t, event) ==> multiset(Tiles(t')) == multiset(Tiles(t)))
            && (Discards(t, event) ==> Tiles(t') == Without(Tiles(t), Position(Tiles(t), Subject(event))))
  {
    match event
    case Activated(id) => ActivateKeeps(t, id);
    case DividerMoved(split, fractions) => SetFractionsKeeps(t, split, fractions);
    case Closed(id) =>
      CloseApplies(t, id);
      if Holds(t, id) { OnceWithout(Tiles(t), Position(Tiles(t), id)); }
    case Dragged(id, to) => DragKeepsStations(t, id, to);
  }

  lemma DragKeepsStations(t: Tree, id: TileId, to: DropTarget)
    requires Canonical(t) && OncePerId(Tiles(t))
    ensures var t' := Drag(t, id, to).tree; var event := Dragged(id, to);
            && Canonical(t') && OncePerId(Tiles(t'))
            && (!Discards(t, event) ==> multiset(Tiles(t')) == multiset(Tiles(t)))
            && (Discards(t, event) ==> Tiles(t') == Without(Tiles(t), Position(Tiles(t), id)))
  {
    RemoveTileTakes(t, id);
    if TargetOk(t, to) && Holds(t, id) {
      var tiles := Tiles(t);
      var p := Position(tiles, id);
      OnceWithout(tiles, p);
      var k: nat;
      match to
      case IntoStack(stack, index) =>
        k := DropApplies(t, id, stack, index);
        OnceInserted(Without(tiles, p), k, tiles[p]);
        MoveKeepsTiles(tiles, p, k);
      case OntoEdge(target, edge) =>
        EdgeShape(t, id, target, edge);
        if target == id {
          OwnEdgeApplies(t, id, edge);
        } else {
          k := EdgeApplies(t, id, target, edge);
          OnceInserted(Without(tiles, p), k, tiles[p]);
          MoveKeepsTiles(tiles, p, k);
        }
    }
  }

  /** A gesture conserves the tiles exactly when it discards none. */
  lemma ConservesIffNotDiscarding(t: Tree, event: TileEvent)
    requires Canonical(t) && OncePerId(Tiles(t))
    ensures multiset(Tiles(ApplyTile(t, event).tree)) == multiset(Tiles(t)) <==> !Discards(t, event)
  {
    GestureKeepsStations(t, event);
    if Discards(t, event) {
      var p := Position(Tiles(t), Subject(event));
      assert |multiset(Without(Tiles(t), p))| == |Tiles(t)| - 1;
      assert |multiset(Tiles(t))| == |Tiles(t)|;
    }
  }

  /** The documented promise that a failed drag never loses a tile fails for a lone tile dropped on its own edge. */
  lemma DropOntoItselfLoses(tile: Tile, edge: Edge)
    ensures var t := Stack([tile], 0);
            && Canonical(t) && OncePerId(Tiles(t))
            && Tiles(ApplyTile(t, Dragged(tile.id, OntoEdge(tile.id, edge))).tree) == []
  {
    var t := Stack([tile], 0);
    assert t.tabs[0].id == tile.id;
    HeldSomewhere(t.tabs, tile.id);
    GestureKeepsStations(t, Dragged(tile.id, OntoEdge(tile.id, edge)));
  }

  // ---------- Runs of gestures ----------

  function RunTiles(t: Tree, events: seq<TileEvent>): Tree
    decreases |events|
  {
    if events == [] then t else RunTiles(ApplyTile(t, events[0]).tree, events[1..])
  }

  /** Over any run: canonical with unique ids, and no tile that was not there at the start. */
  lemma {:induction false} RunsKeepStations(t: Tree, events: seq<TileEvent>)
    requires Canonical(t) && OncePerId(Tiles(t))
    ensures Canonical(RunTiles(t, events)) && OncePerId(Tiles(RunTiles(t, events)))
    ensures multiset(Tiles(RunTiles(t, events))) <= multiset(Tiles(t))
    decreases |events|
  {
    if events != [] {
      GestureKeepsStations(t, events[0]);
      if Discards(t, events[0]) { WithoutIsLess(Tiles(t), Position(Tiles(t), Subject(events[0]))); }
      RunsKeepStations(ApplyTile(t, events[0]).tree, events[1..]);
    }
  }

  /** Over any run without closing and without drops onto a tile's own edge, no tile is lost. */
  lemma {:induction false} RunsConserve(t: Tree, events: seq<TileEvent>)
    requires Canonical(t) && OncePerId(Tiles(t))
    requires forall e :: e in events ==> !e.Closed? && !OntoItself(e)
    ensures multiset(Tiles(RunTiles(t, events))) == multiset(Tiles(t))
    decreases |events|
  {
    if events != [] {
      assert events[0] in events;
      GestureKeepsStations(t, events[0]);
      RunsConserve(ApplyTile(t, events[0]).tree, events[1..]);
    }
  }

  lemma WithoutIsLess(tabs: seq<Tile>, p: nat)
    requires p < |tabs|
    ensures multiset(Without(tabs, p)) <= multiset(tabs)
  {
    assert tabs == tabs[..p] + [tabs[p]] + tabs[p + 1..];
  }
}
