/**
 What each command of crates/cambium/workbench/float.rs does, field by field, and exactly when it
 is reported as applied.
 */
module WorkspaceEdits {
  import opened Wrappers
  import opened TileTree
  import opened TileTheorems
  import opened TileEdits
  import opened Workspace
  import opened WorkspaceRuns
  import StableSort

  // ---------- Floating ----------

  /** The order is one above the highest of these, or 1 where there is none. */
  ghost predicate OnTopOf(z: nat, fs: seq<Floating>) {
    && (forall i :: 0 <= i < |fs| ==> fs[i].z < z)
    && (if fs == [] then z == 1 else exists i :: 0 <= i < |fs| && fs[i].z + 1 == z)
  }

  lemma {:induction false} TopZIsOnTop(fs: seq<Floating>)
    ensures OnTopOf(TopZ(fs) + 1, fs)
  {
    if fs != [] {
      var rest := fs[1..];
      TopZIsOnTop(rest);
      assert forall i :: 0 <= i < |rest| ==> rest[i] == fs[i + 1];
      if fs[0].z >= TopZ(rest) {
        assert fs[0].z + 1 == TopZ(fs) + 1;
      } else {
        var i :| 0 <= i < |rest| && rest[i].z + 1 == TopZ(rest) + 1;
        assert fs[i + 1].z + 1 == TopZ(fs) + 1;
      }
    }
  }

  /**
   Floating a tile: it comes last, on top, at the rectangle asked for. One that was floating keeps
   its constraints, pin and visibility; one from the tree starts unconstrained, unpinned, visible.
   */
  lemma FloatMeans(s: State, id: TileId, rect: Rect)
    ensures var next := FloatStep(s, id, rect);
            if IsFloating(s.floating, id) then
              var i := FloatAt(s.floating, id);
              var prior, left := s.floating[i], s.floating[..i] + s.floating[i + 1..];
              && next.tiled == s.tiled && prior.tile.id == id
              && exists z :: OnTopOf(z, left) && next.floating == left + [prior.(rect := rect, z := z)]
            else if Holds(s.tiled, id) then
              && next.tiled == Collapse(RemoveTile(s.tiled, id).tree)
              && exists z, tile: Tile ::
                   && OnTopOf(z, s.floating) && tile.id == id && tile in Tiles(s.tiled)
                   && next.floating
                      == s.floating + [Floating(tile, rect, Constraints(0.0, 0.0, None, None), z, false, true)]
            else next == s
  {
    RemoveTileTakes(s.tiled, id);
    if IsFloating(s.floating, id) {
      TopZIsOnTop(Removed(s.floating, FloatAt(s.floating, id)));
    } else if Holds(s.tiled, id) {
      TopZIsOnTop(s.floating);
      assert RemoveTile(s.tiled, id).tile.value in Tiles(s.tiled);
    }
  }

  /** The four settings: the named float takes the value, and nothing else in the workspace moves. */
  lemma SettingMeans(s: State, event: FloatEvent)
    requires event.SetRect? || event.SetConstraints? || event.SetPinned? || event.SetVisible?
    ensures var next := FloatLayerStep(s, event); var i := FloatAt(s.floating, event.tile);
            if i == |s.floating| then next == s
            else
              var f := s.floating[i];
              && f.tile.id == event.tile && next.tiled == s.tiled && |next.floating| == |s.floating|
              && (forall k :: 0 <= k < |s.floating| && k != i ==> next.floating[k] == s.floating[k])
              && match event
                 case SetRect(_, rect) =>
                   next.floating[i] == Floating(f.tile, rect, f.constraints, f.z, f.pinned, f.visible)
                 case SetConstraints(_, constraints) =>
                   next.floating[i] == Floating(f.tile, f.rect, constraints, f.z, f.pinned, f.visible)
                 case SetPinned(_, pinned) =>
                   next.floating[i] == Floating(f.tile, f.rect, f.constraints, f.z, pinned, f.visible)
                 case SetVisible(_, visible) =>
                   next.floating[i] == Floating(f.tile, f.rect, f.constraints, f.z, f.pinned, visible)
                 case _ => true
  {
  }

  // ---------- Raising ----------

  /** Renumbering goes by stacking order, and among equals by tile id. */
  lemma RenumberedInOrder(fs: seq<Floating>, i: nat, j: nat)
    requires i < j < |SortByZ(fs)|
    ensures var a, b := SortByZ(fs)[i], SortByZ(fs)[j]; a.z < b.z || (a.z == b.z && a.tile.id <= b.tile.id)
  {
    StableSort.SortOrders(BELOW, fs);
    assert BELOW(SortByZ(fs)[i], SortByZ(fs)[j]);
  }

  ghost function Flat(fs: seq<Floating>): seq<Floating> {
    seq(|fs|, i requires 0 <= i < |fs| => fs[i].(z := 0))
  }

  lemma InsertFlat(f: Floating, fs: seq<Floating>)
    ensures multiset(Flat(StableSort.Insert(BELOW, f, fs))) == multiset{f.(z := 0)} + multiset(Flat(fs))
  {
    var k, flat := StableSort.Place(BELOW, f, fs), Flat(fs);
    assert Flat(StableSort.Insert(BELOW, f, fs)) == flat[..k] + [f.(z := 0)] + flat[k..];
    assert flat == flat[..k] + flat[k..];
  }

  lemma {:induction false} SortFlat(fs: seq<Floating>)
    ensures multiset(Flat(SortByZ(fs))) == multiset(Flat(fs))
  {
    if fs != [] {
      SortFlat(fs[1..]);
      InsertFlat(fs[0], SortByZ(fs[1..]));
      assert Flat(fs) == [fs[0].(z := 0)] + Flat(fs[1..]);
    }
  }

  lemma NormalizeFlat(fs: seq<Floating>)
    ensures multiset(Flat(NormalizeZ(fs))) == multiset(Flat(fs))
  {
    SortFlat(fs);
    assert Flat(NormalizeZ(fs)) == Flat(SortByZ(fs));
  }

  /** A raise changes no float in anything but its stacking order. */
  lemma RaiseChangesOnlyOrder(fs: seq<Floating>, id: TileId)
    ensures multiset(Flat(Raised(fs, id))) == multiset(Flat(fs))
  {
    RaisedSteps(fs, id);
    var sorted := NormalizeZ(fs);
    var i := FloatAt(sorted, id);
    NormalizeFlat(fs);
    if i < |sorted| {
      NormalizeFlat(LiftedAt(sorted, i));
      assert Flat(LiftedAt(sorted, i)) == Flat(sorted);
    }
  }

  // ---------- Docking ----------

  /** Where a docked tile may go, and what the tree then is. */
  ghost predicate DockedAt(t: Tree, t': Tree, tile: Tile, target: DockTarget) {
    match target
    case TiledRoot => Tiles(t) == [] && t' == Stack([tile], 0)
    case Beside(beside, edge) =>
      exists path, before, i: nat ::
        HasAt(before, beside, i) && OnlyAt(t, t', path, before, Halves(before, edge, tile))
    case Tab(beside) =>
      exists path, before, after, i: nat ::
        && HasAt(before, beside, i) && OnlyAt(t, t', path, before, after)
        && after == Stack(Inserted(before.tabs, i + 1, tile), i + 1)
  }

  ghost predicate DockOpen(t: Tree, tile: Tile, target: DockTarget) {
    match target
    case TiledRoot => Tiles(t) == []
    case Beside(beside, _) => Holds(t, beside) && !Holds(t, tile.id)
    case Tab(beside) => Holds(t, beside) && !Holds(t, tile.id)
  }

  lemma DockedMeans(t: Tree, tile: Tile, target: DockTarget)
    ensures Docked(t, tile, target).changed <==> DockOpen(t, tile, target)
    ensures if Docked(t, tile, target).changed then DockedAt(t, Docked(t, tile, target).tree, tile, target)
            else Docked(t, tile, target).tree == t
  {
    match target
    case TiledRoot =>
    case Beside(beside, edge) =>
      SplitAtTilePlaces(t, beside, edge, tile);
      SplitHalves(t, beside, edge, tile);
    case Tab(beside) =>
      InsertTabPlaces(t, beside, tile);
      TabIsShown(t, beside, tile);
  }

  /** Docking a float: it leaves the layer for the place in the tree it was sent to, or nothing happens. */
  lemma DockMeans(s: State, id: TileId, target: DockTarget)
    ensures var next := DockStep(s, id, target); var i := FloatAt(s.floating, id);
            if i < |s.floating| && DockOpen(s.tiled, s.floating[i].tile, target)
            then && next.floating == s.floating[..i] + s.floating[i + 1..]
                 && DockedAt(s.tiled, next.tiled, s.floating[i].tile, target)
            else next == s
  {
    var i := FloatAt(s.floating, id);
    if i < |s.floating| { DockedMeans(s.tiled, s.floating[i].tile, target); }
  }

  // ---------- What is reported ----------

  /** Some stack holds the tile and shows another. */
  ghost predicate Hidden(t: Tree, id: TileId) {
    exists path, i: nat ::
      && NodeAt(t, path).Some? && HasAt(NodeAt(t, path).value, id, i)
      && NodeAt(t, path).value.active != i
  }

  /** The command finds what it speaks of, and asks for something that is not so already where that is checked. */
  ghost predicate TakesEffect(s: State, event: Event) {
    match event
    case FloatE(Float(id, _)) => Contains(s, id)
    case FloatE(Dock(id, target)) =>
      IsFloating(s.floating, id) && DockOpen(s.tiled, s.floating[FloatAt(s.floating, id)].tile, target)
    case FloatE(float) => IsFloating(s.floating, float.tile)
    case TileE(Closed(id)) => Contains(s, id)
    case TileE(Activated(id)) =>
      IsFloating(s.floating, id) || Hidden(s.tiled, id)
    case TileE(DividerMoved(path, fractions)) =>
      && NodeAt(s.tiled, path).Some? && NodeAt(s.tiled, path).value.Split?
      && |Shares(NodeAt(s.tiled, path).value.children)| == |fractions|
      && Shares(NodeAt(s.tiled, path).value.children) != fractions
    case TileE(Dragged(id, IntoStack(path, _))) =>
      Holds(s.tiled, id) && NodeAt(s.tiled, path).Some? && NodeAt(s.tiled, path).value.Stack?
    case TileE(Dragged(id, OntoEdge(target, _))) => Holds(s.tiled, id) && Holds(s.tiled, target)
    case TileE(Dragged(_, Outside)) => false
  }

  /** Applied exactly then; an outside drop of a tile that is there is a tear-out; anything else is unchanged. */
  lemma ReportedExactly(s: State, event: Event)
    ensures OutcomeOf(s, event)
            == if TakesEffect(s, event) then Applied
               else if event.TileE? && event.tile.Dragged? && event.tile.to.Outside? && Contains(s, event.tile.tile)
               then TearOut(event.tile.tile)
               else Unchanged
  {
    match event
    case FloatE(Dock(id, target)) =>
      if IsFloating(s.floating, id) { DockedMeans(s.tiled, s.floating[FloatAt(s.floating, id)].tile, target); }
    case FloatE(_) =>
    case TileE(Closed(id)) => RemoveTileTakes(s.tiled, id);
    case TileE(Activated(id)) => ShownIff(s.tiled, id);
    case TileE(DividerMoved(path, fractions)) => DividerSetsShares(s.tiled, path, fractions);
    case TileE(Dragged(id, _)) => RemoveTileTakes(s.tiled, id);
  }

  lemma ShownIff(t: Tree, id: TileId)
    ensures Activate(t, id).changed <==> Hidden(t, id)
  {
    ActivateShows(t, id);
    if Activate(t, id).changed {
      var path, before, i: nat :| HasAt(before, id, i) && before.active != i
        && OnlyAt(t, Activate(t, id).tree, path, before, Stack(before.tabs, i));
      assert NodeAt(t, path) == Some(before);
    }
  }
}
