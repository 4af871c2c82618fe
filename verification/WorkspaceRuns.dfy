/**
 The station rule of crates/cambium/workbench/float.rs over whole runs, the stacking order a
 raise leaves, and the workspace as the object a host keeps.

 A tile's station is the tree or the floating layer. The rule is that the tiles of both, taken
 together, have no id twice and that the tree is canonical; every command keeps it, and the
 collection of tiles is the same before and after unless the command discards one, which is
 decided from the state before the command.
 */
module WorkspaceRuns {
  import opened Wrappers
  import opened TileTree
  import opened TileTheorems
  import opened TileRuns
  import StableSort
  import opened Workspace

  // ---------- Ids and multisets of tiles ----------

  lemma TwiceInMultiset(b: seq<Tile>, i: nat, j: nat)
    requires i < j < |b| && b[i] == b[j]
    ensures multiset(b)[b[i]] >= 2
  {
    assert b == b[..j] + [b[j]] + b[j + 1..];
    assert b[..j][i] in multiset(b[..j]);
  }

  lemma OnceInMultiset(a: seq<Tile>, x: Tile)
    requires OncePerId(a)
    ensures multiset(a)[x] <= 1
  {
    if x in a {
      var i :| 0 <= i < |a| && a[i] == x;
      assert a == a[..i] + [x] + a[i + 1..];
      assert x !in a[..i] && x !in a[i + 1..];
      assert multiset(a) == multiset(a[..i]) + multiset{x} + multiset(a[i + 1..]);
    }
  }

  /** A collection with no tile beyond those of one without repeated ids has no repeated ids. */
  lemma OnceByMultiset(a: seq<Tile>, b: seq<Tile>)
    requires OncePerId(a) && multiset(b) <= multiset(a)
    ensures OncePerId(b)
  {
    forall i, j | 0 <= i < j < |b| ensures b[i].id != b[j].id {
      if b[i].id == b[j].id {
        assert b[i] in multiset(b) && b[j] in multiset(b);
        assert b[i] in a && b[j] in a;
        TwiceInMultiset(b, i, j);
        OnceInMultiset(a, b[i]);
        assert false;
      }
    }
  }

  // ---------- The float layer ----------

  lemma RemovedTiles(fs: seq<Floating>, i: nat)
    requires i < |fs|
    ensures FloatTiles(Removed(fs, i)) == Without(FloatTiles(fs), i)
  {
  }

  lemma AppendedTiles(fs: seq<Floating>, f: Floating)
    ensures FloatTiles(fs + [f]) == FloatTiles(fs) + [f.tile]
  {
  }

  lemma WithoutSplits(tabs: seq<Tile>, p: nat)
    requires p < |tabs|
    ensures multiset(tabs) == multiset(Without(tabs, p)) + multiset{tabs[p]}
  {
    assert tabs == tabs[..p] + [tabs[p]] + tabs[p + 1..];
  }

  lemma InsertedJoins(tabs: seq<Tile>, k: nat, tile: Tile)
    requires k <= |tabs|
    ensures multiset(Inserted(tabs, k, tile)) == multiset(tabs) + multiset{tile}
  {
    assert tabs == tabs[..k] + tabs[k..];
  }

  lemma InsertTiles(f: Floating, fs: seq<Floating>)
    ensures multiset(FloatTiles(StableSort.Insert(BELOW, f, fs))) == multiset{f.tile} + multiset(FloatTiles(fs))
    ensures |StableSort.Insert(BELOW, f, fs)| == |fs| + 1
  {
    var k, tiles := StableSort.Place(BELOW, f, fs), FloatTiles(fs);
    assert FloatTiles(StableSort.Insert(BELOW, f, fs)) == tiles[..k] + [f.tile] + tiles[k..];
    assert tiles == tiles[..k] + tiles[k..];
  }

  lemma {:induction false} SortByZTiles(fs: seq<Floating>)
    ensures multiset(FloatTiles(SortByZ(fs))) == multiset(FloatTiles(fs))
    ensures |SortByZ(fs)| == |fs|
  {
    if fs != [] {
      SortByZTiles(fs[1..]);
      InsertTiles(fs[0], SortByZ(fs[1..]));
      assert FloatTiles(fs) == [fs[0].tile] + FloatTiles(fs[1..]);
    }
  }

  lemma NormalizeZTiles(fs: seq<Floating>)
    ensures multiset(FloatTiles(NormalizeZ(fs))) == multiset(FloatTiles(fs))
    ensures |NormalizeZ(fs)| == |fs|
  {
    SortByZTiles(fs);
    assert FloatTiles(NormalizeZ(fs)) == FloatTiles(SortByZ(fs));
  }

  /** A raise, by the two renumberings it makes. */
  lemma RaisedSteps(fs: seq<Floating>, id: TileId)
    ensures var sorted := NormalizeZ(fs); var i := FloatAt(sorted, id);
            Raised(fs, id) == if i < |sorted| then NormalizeZ(LiftedAt(sorted, i)) else sorted
  {
  }

  lemma RaisedTiles(fs: seq<Floating>, id: TileId)
    ensures multiset(FloatTiles(Raised(fs, id))) == multiset(FloatTiles(fs))
  {
    var sorted := NormalizeZ(fs);
    NormalizeZTiles(fs);
    var i := FloatAt(sorted, id);
    if i < |sorted| {
      var lifted := sorted[i := sorted[i].(z := |sorted| + 1)];
      assert FloatTiles(lifted) == FloatTiles(sorted);
      NormalizeZTiles(lifted);
    }
  }

  lemma {:induction false} KeepOthersIsRemoved(fs: seq<Floating>, id: TileId)
    requires OncePerId(FloatTiles(fs)) && IsFloating(fs, id)
    ensures KeepOthers(fs, id) == Removed(fs, FloatAt(fs, id))
  {
    var tiles := FloatTiles(fs);
    assert FloatTiles(fs[1..]) == tiles[1..];
    if fs[0].tile.id == id {
      assert FloatAt(fs, id) == 0;
      forall k | 0 <= k < |fs[1..]| ensures fs[1..][k].tile.id != id {
        assert tiles[0].id != tiles[k + 1].id;
      }
      NoneLeft(fs[1..], id);
    } else {
      KeepOthersIsRemoved(fs[1..], id);
    }
  }

  lemma {:induction false} NoneLeft(fs: seq<Floating>, id: TileId)
    requires forall k :: 0 <= k < |fs| ==> fs[k].tile.id != id
    ensures KeepOthers(fs, id) == fs
  {
    if fs != [] { NoneLeft(fs[1..], id); }
  }

  // ---------- Raising ----------

  /** Stacking orders strictly increase. */
  ghost predicate Rising(fs: seq<Floating>) {
    forall i, j :: 0 <= i < j < |fs| ==> fs[i].z < fs[j].z
  }

  /** A list whose orders strictly increase is what sorting any arrangement of it gives. */
  lemma SortsTo(fs: seq<Floating>, listing: seq<Floating>)
    requires Rising(listing) && multiset(fs) == multiset(listing)
    ensures SortByZ(fs) == listing
  {
    assert StableSort.InOrder(BELOW, listing) && StableSort.Untied(BELOW, listing);
    StableSort.SortIs(BELOW, fs, listing);
  }

  /** Sorting a numbered list whose one misplaced float has the greatest order moves just that float to the end. */
  lemma LiftSorts(fs: seq<Floating>, p: nat, f: Floating)
    requires p < |fs| && f.z == |fs| + 1 && forall i :: 0 <= i < |fs| ==> fs[i].z == i + 1
    ensures SortByZ(fs[p := f]) == Removed(fs, p) + [f]
  {
    var a, b := fs[..p], fs[p + 1..];
    assert fs[p := f] == a + [f] + b;
    assert multiset(a + [f] + b) == multiset(a + b + [f]);
    assert forall i :: 0 <= i < |a + b| ==> (a + b)[i].z == if i < p then i + 1 else i + 2;
    SortsTo(fs[p := f], a + b + [f]);
  }

  /** Renumbering after one float of a numbered list was lifted over all puts it last and moves nothing else. */
  lemma LiftedLast(fs: seq<Floating>, p: nat)
    requires p < |fs| && forall i :: 0 <= i < |fs| ==> fs[i].z == i + 1
    ensures var after := NormalizeZ(LiftedAt(fs, p)); var tiles := FloatTiles(fs);
            && |after| == |fs| && FloatTiles(after) == Without(tiles, p) + [tiles[p]]
            && (forall i :: 0 <= i < |after| ==> after[i].z == i + 1)
  {
    var f := fs[p].(z := |fs| + 1);
    LiftSorts(fs, p, f);
    RemovedTiles(fs, p);
    AppendedTiles(Removed(fs, p), f);
    assert FloatTiles(NormalizeZ(LiftedAt(fs, p))) == FloatTiles(SortByZ(LiftedAt(fs, p)));
  }

  /**
   A raise leaves the stacking orders 1..n, the raised tile on top, and every other tile in the
   order it had.
   */
  lemma RaiseLifts(fs: seq<Floating>, id: TileId)
    requires IsFloating(fs, id)
    ensures var before := FloatTiles(SortByZ(fs)); var after := Raised(fs, id); var p := Position(before, id);
            && |before| == |after| == |fs| && p < |before|
            && FloatTiles(after) == Without(before, p) + [before[p]]
            && (forall i :: 0 <= i < |after| ==> after[i].z == i + 1)
  {
    SortByZTiles(fs);
    var sorted, before := NormalizeZ(fs), FloatTiles(SortByZ(fs));
    assert FloatTiles(sorted) == before;
    SameMembersHold(FloatTiles(fs), before, id);
    RaisedSteps(fs, id);
    LiftedLast(sorted, FloatAt(sorted, id));
  }

  lemma SameMembersHold(a: seq<Tile>, b: seq<Tile>, id: TileId)
    requires multiset(a) == multiset(b) && Position(a, id) < |a|
    ensures Position(b, id) < |b|
  {
    var x := a[Position(a, id)];
    assert x in multiset(b);
    var i :| 0 <= i < |b| && b[i] == x;
    HeldSomewhere(b, id);
  }

  // ---------- One station per tile ----------

  /** The tree is canonical and every tile is in exactly one place. */
  ghost predicate OneStation(s: State) {
    Canonical(s.tiled) && OncePerId(AllTiles(s))
  }

  lemma StationsApart(s: State)
    requires OncePerId(AllTiles(s))
    ensures OncePerId(Tiles(s.tiled)) && OncePerId(FloatTiles(s.floating))
    ensures forall i :: 0 <= i < |s.floating| ==> !Holds(s.tiled, s.floating[i].tile.id)
  {
    var all, a, b := AllTiles(s), Tiles(s.tiled), FloatTiles(s.floating);
    assert forall i :: 0 <= i < |a| ==> all[i] == a[i];
    assert forall i :: 0 <= i < |b| ==> all[|a| + i] == b[i];
    forall i, j | 0 <= i < j < |b| ensures b[i].id != b[j].id { assert all[|a| + i].id != all[|a| + j].id; }
    forall i | 0 <= i < |s.floating| ensures !Holds(s.tiled, s.floating[i].tile.id) {
      assert b[i] == s.floating[i].tile;
      forall k | 0 <= k < |a| ensures a[k].id != b[i].id { assert all[k].id != all[|a| + i].id; }
    }
  }

  /** Whether an event takes a tile out of the workspace. */
  predicate Discarding(s: State, event: Event) {
    event.TileE? && (
      || (event.tile.Closed? && (IsFloating(s.floating, event.tile.id) || Holds(s.tiled, event.tile.id)))
      || (OntoItself(event.tile) && Holds(s.tiled, event.tile.tile)))
  }

  lemma TileStepKeeps(s: State, tile: TileEvent)
    requires OneStation(s)
    ensures var s' := s.(tiled := ApplyTile(s.tiled, tile).tree);
            && Canonical(s'.tiled) && multiset(AllTiles(s')) <= multiset(AllTiles(s))
            && (Discards(s.tiled, tile) <==> multiset(AllTiles(s')) != multiset(AllTiles(s)))
  {
    StationsApart(s);
    GestureKeepsStations(s.tiled, tile);
    ConservesIffNotDiscarding(s.tiled, tile);
    var a, a', b := Tiles(s.tiled), Tiles(ApplyTile(s.tiled, tile).tree), FloatTiles(s.floating);
    assert multiset(a + b) == multiset(a) + multiset(b);
    assert multiset(a' + b) == multiset(a') + multiset(b);
    if Discards(s.tiled, tile) {
      WithoutIsLess(a, Position(a, Subject(tile)));
      assert |multiset(a')| < |multiset(a)|;
    }
  }

  lemma RefloatKeeps(s: State, id: TileId, rect: Rect)
    requires OneStation(s) && IsFloating(s.floating, id)
    ensures FloatStep(s, id, rect).tiled == s.tiled
    ensures multiset(FloatTiles(FloatStep(s, id, rect).floating)) == multiset(FloatTiles(s.floating))
  {
    var i := FloatAt(s.floating, id);
    var left, fs := Removed(s.floating, i), FloatStep(s, id, rect).floating;
    var f := fs[|left|];
    RemovedTiles(s.floating, i);
    WithoutSplits(FloatTiles(s.floating), i);
    AppendedTiles(left, f);
    assert fs == left + [f] && f.tile == FloatTiles(s.floating)[i];
  }

  lemma LeaveTreeKeeps(s: State, id: TileId, rect: Rect)
    requires OneStation(s) && !IsFloating(s.floating, id) && Holds(s.tiled, id)
    ensures Canonical(FloatStep(s, id, rect).tiled)
    ensures var p := Position(Tiles(s.tiled), id);
            && Tiles(FloatStep(s, id, rect).tiled) == Without(Tiles(s.tiled), p)
            && FloatTiles(FloatStep(s, id, rect).floating) == FloatTiles(s.floating) + [Tiles(s.tiled)[p]]
  {
    CloseApplies(s.tiled, id);
    RemoveTileTakes(s.tiled, id);
    var fs := FloatStep(s, id, rect).floating;
    var f := fs[|s.floating|];
    AppendedTiles(s.floating, f);
    assert fs == s.floating + [f];
  }

  lemma FloatStepKeeps(s: State, id: TileId, rect: Rect)
    requires OneStation(s)
    ensures Canonical(FloatStep(s, id, rect).tiled)
    ensures multiset(AllTiles(FloatStep(s, id, rect))) == multiset(AllTiles(s))
  {
    var a, b := Tiles(s.tiled), FloatTiles(s.floating);
    if IsFloating(s.floating, id) {
      RefloatKeeps(s, id, rect);
      assert multiset(a + b) == multiset(a) + multiset(b);
    } else {
      RemoveTileTakes(s.tiled, id);
      if Holds(s.tiled, id) {
        LeaveTreeKeeps(s, id, rect);
        var p := Position(a, id);
        WithoutSplits(a, p);
        assert multiset(a + b) == multiset(Without(a, p)) + multiset{a[p]} + multiset(b);
        assert multiset(Without(a, p) + (b + [a[p]])) == multiset(Without(a, p)) + multiset(b) + multiset{a[p]};
      }
    }
  }

  /** An edit that added one tile to a canonical tree, or did nothing. */
  ghost predicate Gains(t: Tree, edit: Edit, tile: Tile) {
    && Canonical(edit.tree)
    && (!edit.changed ==> edit.tree == t)
    && (edit.changed ==> multiset(Tiles(edit.tree)) == multiset(Tiles(t)) + multiset{tile})
  }

  lemma BesideGains(t: Tree, tile: Tile, beside: TileId, edge: Edge)
    requires Canonical(t) && !Holds(t, tile.id)
    ensures Gains(t, SplitBeside(t, beside, edge, tile), tile)
  {
    if Holds(t, beside) {
      InnerIsLoose(t);
      SplitAtTilePlaces(t, beside, edge, tile);
      SplitAtTileShape(t, beside, edge, tile);
      InnerIsLoose(SplitAtTile(t, beside, edge, tile).tree);
      InsertedJoins(Tiles(t), SplitPlace(t, beside, edge), tile);
    }
  }

  lemma TabJoins(t: Tree, tile: Tile, after: TileId)
    requires Inner(t) && Holds(t, after) && !Holds(t, tile.id)
    ensures var edit := InsertTabAfter(t, after, tile);
            && edit.changed && Inner(edit.tree)
            && multiset(Tiles(edit.tree)) == multiset(Tiles(t)) + multiset{tile}
  {
    InsertTabPlaces(t, after, tile);
    InsertedJoins(Tiles(t), Position(Tiles(t), after) + 1, tile);
  }

  lemma TabGains(t: Tree, tile: Tile, after: TileId)
    requires Canonical(t) && !Holds(t, tile.id)
    ensures Gains(t, InsertTabAfter(t, after, tile), tile)
  {
    if Holds(t, after) {
      TabJoins(t, tile, after);
    } else {
      InsertTabPlaces(t, after, tile);
    }
  }

  lemma DockedGains(t: Tree, tile: Tile, target: DockTarget)
    requires Canonical(t) && !Holds(t, tile.id)
    ensures Gains(t, Docked(t, tile, target), tile)
  {
    match target
    case TiledRoot =>
    case Beside(beside, edge) => BesideGains(t, tile, beside, edge);
    case Tab(after) => TabGains(t, tile, after);
  }

  /** A tile taken out of one list and added to the other. */
  lemma MovesAcross(a: seq<Tile>, grown: seq<Tile>, b: seq<Tile>, i: nat)
    requires i < |b| && multiset(grown) == multiset(a) + multiset{b[i]}
    ensures multiset(grown + Without(b, i)) == multiset(a + b)
  {
    WithoutSplits(b, i);
    assert multiset(grown + Without(b, i)) == multiset(grown) + multiset(Without(b, i));
    assert multiset(a + b) == multiset(a) + multiset(b);
  }

  lemma MovedInKeeps(s: State, i: nat, edit: Edit)
    requires i < |s.floating| && edit.changed && Gains(s.tiled, edit, s.floating[i].tile)
    ensures multiset(AllTiles(State(edit.tree, Removed(s.floating, i)))) == multiset(AllTiles(s))
  {
    RemovedTiles(s.floating, i);
    MovesAcross(Tiles(s.tiled), Tiles(edit.tree), FloatTiles(s.floating), i);
  }

  lemma DockStepKeeps(s: State, id: TileId, target: DockTarget)
    requires OneStation(s)
    ensures Canonical(DockStep(s, id, target).tiled)
    ensures multiset(AllTiles(DockStep(s, id, target))) == multiset(AllTiles(s))
  {
    var i := FloatAt(s.floating, id);
    if i < |s.floating| {
      var edit := Docked(s.tiled, s.floating[i].tile, target);
      assert Gains(s.tiled, edit, s.floating[i].tile) by {
        StationsApart(s);
        DockedGains(s.tiled, s.floating[i].tile, target);
      }
      if edit.changed { MovedInKeeps(s, i, edit); }
    }
  }

  lemma SameFloats(s: State, floating: seq<Floating>)
    requires multiset(FloatTiles(floating)) == multiset(FloatTiles(s.floating))
    ensures multiset(AllTiles(s.(floating := floating))) == multiset(AllTiles(s))
  {
    assert multiset(AllTiles(s)) == multiset(Tiles(s.tiled)) + multiset(FloatTiles(s.floating));
  }

  lemma TunedKeeps(s: State, i: nat, f: Floating)
    requires OneStation(s) && i < |s.floating| && f.tile == s.floating[i].tile
    ensures multiset(AllTiles(s.(floating := s.floating[i := f]))) == multiset(AllTiles(s))
  {
    assert FloatTiles(s.floating[i := f]) == FloatTiles(s.floating);
    SameFloats(s, s.floating[i := f]);
  }

  lemma FloatLayerKeeps(s: State, event: FloatEvent)
    requires OneStation(s)
    ensures Canonical(FloatLayerStep(s, event).tiled)
    ensures multiset(AllTiles(FloatLayerStep(s, event))) == multiset(AllTiles(s))
  {
    match event
    case Float(id, rect) => FloatStepKeeps(s, id, rect);
    case Dock(id, target) => DockStepKeeps(s, id, target);
    case Raise(id) =>
      RaisedTiles(s.floating, id);
      SameFloats(s, Raised(s.floating, id));
    case _ =>
      var i := FloatAt(s.floating, event.tile);
      if i < |s.floating| { TunedKeeps(s, i, Tuned(s.floating[i], event)); }
  }

  lemma CloseFloatKeeps(s: State, id: TileId)
    requires OneStation(s) && IsFloating(s.floating, id)
    ensures var s' := s.(floating := KeepOthers(s.floating, id));
            && multiset(AllTiles(s')) <= multiset(AllTiles(s)) && |AllTiles(s')| == |AllTiles(s)| - 1
  {
    StationsApart(s);
    KeepOthersIsRemoved(s.floating, id);
    var i := FloatAt(s.floating, id);
    RemovedTiles(s.floating, i);
    var a, b := Tiles(s.tiled), FloatTiles(s.floating);
    WithoutSplits(b, i);
    assert multiset(a + b) == multiset(a) + multiset(b);
    assert multiset(a + Without(b, i)) == multiset(a) + multiset(Without(b, i));
  }

  lemma DifferentSize(a: seq<Tile>, b: seq<Tile>)
    requires |a| != |b|
    ensures multiset(a) != multiset(b)
  {
    assert |multiset(a)| == |a| && |multiset(b)| == |b|;
  }

  lemma TileEventKeeps(s: State, tile: TileEvent)
    requires OneStation(s)
    ensures Canonical(Step(s, TileE(tile)).tiled)
    ensures multiset(AllTiles(Step(s, TileE(tile)))) <= multiset(AllTiles(s))
    ensures Discarding(s, TileE(tile)) <==> multiset(AllTiles(Step(s, TileE(tile)))) != multiset(AllTiles(s))
  {
    if tile.Dragged? && tile.to.Outside? {
    } else if tile.Closed? && IsFloating(s.floating, tile.id) {
      CloseFloatKeeps(s, tile.id);
      DifferentSize(AllTiles(Step(s, TileE(tile))), AllTiles(s));
    } else if tile.Activated? && IsFloating(s.floating, tile.id) {
      FloatLayerKeeps(s, Raise(tile.id));
    } else {
      TileStepKeeps(s, tile);
    }
  }

  /**
   Every event keeps the station rule; the workspace's tiles are conserved exactly when the event
   does not close a tile it holds and does not drop a tiled tile on its own edge.
   */
  lemma StepKeepsOneStation(s: State, event: Event)
    requires OneStation(s)
    ensures OneStation(Step(s, event))
    ensures multiset(AllTiles(Step(s, event))) <= multiset(AllTiles(s))
    ensures Discarding(s, event) <==> multiset(AllTiles(Step(s, event))) != multiset(AllTiles(s))
  {
    match event {
      case FloatE(float) => FloatLayerKeeps(s, float);
      case TileE(tile) => TileEventKeeps(s, tile);
    }
    OnceByMultiset(AllTiles(s), AllTiles(Step(s, event)));
  }

  function Run(s: State, events: seq<Event>): State
    decreases |events|
  {
    if events == [] then s else Run(Step(s, events[0]), events[1..])
  }

  /** Over any run of events, each tile stays at exactly one station and no tile appears from nowhere. */
  lemma {:induction false} RunsKeepOneStation(s: State, events: seq<Event>)
    requires OneStation(s)
    ensures OneStation(Run(s, events)) && multiset(AllTiles(Run(s, events))) <= multiset(AllTiles(s))
    decreases |events|
  {
    if events != [] {
      StepKeepsOneStation(s, events[0]);
      RunsKeepOneStation(Step(s, events[0]), events[1..]);
    }
  }

  // ---------- The workspace a host keeps ----------

  predicate Contains(s: State, id: TileId) {
    Holds(s.tiled, id) || IsFloating(s.floating, id)
  }

  /** What the caller is told: a tear-out request, or whether the command took effect. */
  function OutcomeOf(s: State, event: Event): Outcome {
    match event
    case TileE(tile) =>
      if tile.Dragged? && tile.to.Outside? then
        if Contains(s, tile.tile) then TearOut(tile.tile) else Unchanged
      else if (tile.Closed? || tile.Activated?) && IsFloating(s.floating, tile.id) then Applied
      else if ApplyTile(s.tiled, tile).changed then Applied else Unchanged
    case FloatE(float) => if FloatTakesEffect(s, float) then Applied else Unchanged
  }

  predicate FloatTakesEffect(s: State, event: FloatEvent) {
    match event
    case Float(id, _) => Contains(s, id)
    case Dock(id, target) =>
      IsFloating(s.floating, id) && Docked(s.tiled, s.floating[FloatAt(s.floating, id)].tile, target).changed
    case _ => IsFloating(s.floating, event.tile)
  }

  /** A command reported unchanged or torn out leaves the workspace as it was. */
  lemma UnchangedMeansUnchanged(s: State, event: Event)
    ensures !OutcomeOf(s, event).Applied? ==> Step(s, event) == s
  {
    match event {
      case FloatE(float) =>
        if float.Float? { RemoveTileTakes(s.tiled, float.tile); }
      case TileE(tile) =>
        match tile {
          case Activated(id) => ActivateKeeps(s.tiled, id);
          case Closed(id) =>
          case Dragged(id, to) =>
          case DividerMoved(split, fractions) => SameFractions(s.tiled, split, fractions);
        }
    }
  }

  lemma SameFractions(t: Tree, path: seq<nat>, fractions: seq<real>)
    ensures !SetFractions(t, path, fractions).changed ==> SetFractions(t, path, fractions).tree == t
  {
    var node := NodeAt(t, path);
    if node.Some? { ReplaceBySame(t, path); }
  }

  lemma {:induction false} ReplaceBySame(t: Tree, path: seq<nat>)
    requires NodeAt(t, path).Some?
    ensures ReplaceAt(t, path, NodeAt(t, path).value) == t
    decreases t, 0
  {
    if path != [] { ReplaceInBySame(t.children, path[0], path[1..]); }
  }

  lemma {:induction false} ReplaceInBySame(bs: Branches, i: nat, path: seq<nat>)
    requires NodeIn(bs, i, path).Some?
    ensures ReplaceIn(bs, i, path, NodeIn(bs, i, path).value) == bs
    decreases bs, 1
  {
    if i == 0 { ReplaceBySame(bs.tree, path); } else { ReplaceInBySame(bs.rest, i - 1, path); }
  }

  class Host {
    var tiled: Tree
    var floating: seq<Floating>

    function Contents(): State
      reads this
    {
      State(tiled, floating)
    }

    ghost predicate Valid()
      reads this
    {
      OneStation(Contents())
    }

    constructor (tiled: Tree)
      requires Canonical(tiled) && OncePerId(Tiles(tiled))
      ensures Valid() && Contents() == State(tiled, [])
    {
      this.tiled, floating := tiled, [];
      new;
      assert Tiles(tiled) + [] == Tiles(tiled);
    }

    /** Sort the floats back to front and number them from 1. */
    method NormalizeFloats()
      modifies this`floating
      ensures floating == NormalizeZ(old(floating))
    {
      floating := SortByZ(floating);
      ghost var sorted := floating;
      for i := 0 to |floating|
        invariant |floating| == |sorted|
        invariant forall k :: 0 <= k < i ==> floating[k] == sorted[k].(z := k + 1)
        invariant forall k :: i <= k < |floating| ==> floating[k] == sorted[k]
      {
        floating := floating[i := floating[i].(z := i + 1)];
      }
    }

    method RaiseFloat(id: TileId)
      requires IsFloating(floating, id)
      modifies this`floating
      ensures floating == Raised(old(floating), id)
    {
      RaisedSteps(floating, id);
      NormalizeFloats();
      var i := FloatAt(floating, id);
      if i < |floating| {
        floating := LiftedAt(floating, i);
        NormalizeFloats();
      }
    }

    method ApplyFloat(event: FloatEvent) returns (changed: bool)
      modifies this
      ensures Contents() == FloatLayerStep(old(Contents()), event)
      ensures changed <==> FloatTakesEffect(old(Contents()), event)
    {
      RemoveTileTakes(tiled, event.tile);
      var i := FloatAt(floating, event.tile);
      match event
      case Float(id, rect) =>
        if i < |floating| {
          var prior := floating[i];
          floating := Removed(floating, i);
          floating := floating + [Floating(prior.tile, rect, prior.constraints, TopZ(floating) + 1, prior.pinned,
                                           prior.visible)];
          return true;
        }
        var taken := RemoveTile(tiled, id);
        if taken.tile.None? { return false; }
        tiled := Collapse(taken.tree);
        floating := floating + [Floating(taken.tile.value, rect, UNCONSTRAINED, TopZ(floating) + 1, false, true)];
        changed := true;
      case Dock(id, target) =>
        if i == |floating| { return false; }
        var docked := Docked(tiled, floating[i].tile, target);
        if docked.changed {
          tiled := docked.tree;
          floating := Removed(floating, i);
        }
        changed := docked.changed;
      case Raise(id) =>
        if i == |floating| { return false; }
        RaiseFloat(id);
        changed := true;
      case _ =>
        if i == |floating| { return false; }
        floating := floating[i := Tuned(floating[i], event)];
        changed := true;
    }

    /** Apply one command under the station rule. */
    method Apply(event: Event) returns (outcome: Outcome)
      requires Valid()
      modifies this
      ensures Valid() && Contents() == Step(old(Contents()), event)
      ensures outcome == OutcomeOf(old(Contents()), event)
    {
      StepKeepsOneStation(Contents(), event);
      var changed: bool;
      match event {
        case FloatE(float) => changed := ApplyFloat(float);
        case TileE(tile) =>
          if tile.Dragged? && tile.to.Outside? {
            return if Contains(Contents(), tile.tile) then TearOut(tile.tile) else Unchanged;
          }
          if tile.Closed? && IsFloating(floating, tile.id) {
            floating := KeepOthers(floating, tile.id);
            changed := true;
          } else if tile.Activated? && IsFloating(floating, tile.id) {
            RaiseFloat(tile.id);
            changed := true;
          } else {
            var edit := ApplyTile(tiled, tile);
            tiled, changed := edit.tree, edit.changed;
          }
      }
      outcome := if changed then Applied else Unchanged;
    }

    /** Place a tile that arrived from elsewhere on top of the floats; refused if its id is present. */
    method InsertFloating(float: Floating) returns (ok: bool)
      requires Valid()
      modifies this`floating
      ensures Valid() && tiled == old(tiled)
      ensures ok <==> !Contains(old(Contents()), float.tile.id)
      ensures floating == if ok then old(floating) + [float.(z := TopZ(old(floating)) + 1)] else old(floating)
    {
      ok := !Contains(Contents(), float.tile.id);
      if ok {
        ArrivalIsApart(Contents(), float.tile);
        AppendedTiles(floating, float.(z := TopZ(floating) + 1));
        floating := floating + [float.(z := TopZ(floating) + 1)];
        assert AllTiles(Contents()) == AllTiles(old(Contents())) + [float.tile];
      }
    }

    /** Remove a tile from whichever station holds it. */
    method TakeTile(id: TileId) returns (tile: Option<Tile>)
      requires Valid()
      modifies this
      ensures Valid()
      ensures tile.Some? <==> Contains(old(Contents()), id)
      ensures tile.None? ==> Contents() == old(Contents())
      ensures tile.Some? ==> tile.value.id == id
      ensures tile.Some? ==>
                multiset(AllTiles(old(Contents()))) == multiset(AllTiles(Contents())) + multiset{tile.value}
    {
      ghost var before := Contents();
      var i := FloatAt(floating, id);
      if i < |floating| {
        FloatTaken(before, i);
        tile := Some(floating[i].tile);
        floating := Removed(floating, i);
      } else {
        TileTaken(before, id);
        var taken := RemoveTile(tiled, id);
        tile := taken.tile;
        if tile.Some? {
          tiled := Collapse(taken.tree);
        }
      }
    }
  }

  lemma ArrivalIsApart(s: State, tile: Tile)
    requires OneStation(s) && !Contains(s, tile.id)
    ensures OncePerId(AllTiles(s) + [tile])
  {
    var a, b := Tiles(s.tiled), FloatTiles(s.floating);
    assert Position(b, tile.id) == |b|;
    forall i | 0 <= i < |AllTiles(s)| ensures AllTiles(s)[i].id != tile.id {
      if i < |a| { assert AllTiles(s)[i] == a[i]; } else { assert AllTiles(s)[i] == b[i - |a|]; }
    }
  }

  /** A tile is gone from a state that keeps the station rule. */
  ghost predicate Gone(s: State, s': State, tile: Tile) {
    OneStation(s') && multiset(AllTiles(s)) == multiset(AllTiles(s')) + multiset{tile}
  }

  lemma GoneByStation(s: State, s': State, tile: Tile)
    requires OncePerId(AllTiles(s)) && Canonical(s'.tiled)
    requires multiset(Tiles(s.tiled)) + multiset(FloatTiles(s.floating))
          == multiset(Tiles(s'.tiled)) + multiset(FloatTiles(s'.floating)) + multiset{tile}
    ensures Gone(s, s', tile)
  {
    assert multiset(AllTiles(s)) == multiset(Tiles(s.tiled)) + multiset(FloatTiles(s.floating));
    assert multiset(AllTiles(s')) == multiset(Tiles(s'.tiled)) + multiset(FloatTiles(s'.floating));
    OnceByMultiset(AllTiles(s), AllTiles(s'));
  }

  lemma FloatTaken(s: State, i: nat)
    requires OneStation(s) && i < |s.floating|
    ensures Gone(s, s.(floating := Removed(s.floating, i)), s.floating[i].tile)
  {
    RemovedTiles(s.floating, i);
    WithoutSplits(FloatTiles(s.floating), i);
    GoneByStation(s, s.(floating := Removed(s.floating, i)), s.floating[i].tile);
  }

  lemma TileTaken(s: State, id: TileId)
    requires OneStation(s)
    ensures var r := RemoveTile(s.tiled, id);
            && (r.tile.Some? <==> Holds(s.tiled, id))
            && (r.tile.Some? ==> r.tile.value.id == id && Gone(s, s.(tiled := Collapse(r.tree)), r.tile.value))
  {
    RemoveTileTakes(s.tiled, id);
    if Holds(s.tiled, id) {
      var r, p := RemoveTile(s.tiled, id), Position(Tiles(s.tiled), id);
      CloseApplies(s.tiled, id);
      WithoutSplits(Tiles(s.tiled), p);
      GoneByStation(s, s.(tiled := Collapse(r.tree)), r.tile.value);
    }
  
  }
}
