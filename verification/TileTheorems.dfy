/**
 What the edits of crates/cambium/workbench/lib.rs do to a tree: where tiles go, what shape is
 kept, and what collapsing guarantees.

 Each edit comes with two facts, proved by one induction over the tree and its list of branches:
 what it does to the tiles read in document order (`Inserted`, `Without`, or nothing), and what it
 does to the shape. Three shapes are told apart: `Inner` is what a user sees, non-empty stacks with
 their active tab in range under splits of at least two; `Loose` allows stacks an edit has just
 emptied; `Collapsed` is what the closing pass reaches from anything, no empty stack below the
 top, no split of one, shares summing to 1.
 */
module TileTheorems {
  import opened Wrappers
  import opened TileTree

  // ---------- Collapsing ----------

  lemma RetainedKeepsTiles(bs: Branches)
    ensures TilesOf(Retained(bs)) == TilesOf(bs)
  {
  }

  lemma NormalizedKeepsTiles(bs: Branches)
    ensures TilesOf(Normalized(bs)) == TilesOf(bs)
    ensures Count(Normalized(bs)) == Count(bs)
  {
    var sum := FractionSum(bs);
    if sum > EPSILON {
      ScaledKeepsTiles(bs, sum);
    } else if bs.Branch? {
      EvenedKeepsTiles(bs, 1.0 / (Count(bs) as real));
    }
  }

  lemma ScaledKeepsTiles(bs: Branches, sum: real)
    requires sum != 0.0
    ensures TilesOf(Scaled(bs, sum)) == TilesOf(bs) && Count(Scaled(bs, sum)) == Count(bs)
  {
  }

  lemma EvenedKeepsTiles(bs: Branches, share: real)
    ensures TilesOf(Evened(bs, share)) == TilesOf(bs) && Count(Evened(bs, share)) == Count(bs)
  {
  }

  /** Collapsing loses no tile and keeps their order. */
  lemma {:induction false} CollapseKeepsTiles(t: Tree)
    ensures Tiles(Collapse(t)) == Tiles(t)
    decreases t, 0
  {
    if t.Split? {
      CollapseAllKeepsTiles(t.children);
      var kept := Retained(CollapseAll(t.children));
      RetainedKeepsTiles(CollapseAll(t.children));
      NormalizedKeepsTiles(kept);
      var n := Normalized(kept);
      if n.Branch? && n.rest.End? { assert TilesOf(n) == Tiles(n.tree) + []; }
    }
  }

  lemma {:induction false} CollapseAllKeepsTiles(bs: Branches)
    ensures TilesOf(CollapseAll(bs)) == TilesOf(bs)
    decreases bs, 1
  {
    if bs.Branch? {
      CollapseKeepsTiles(bs.tree);
      CollapseAllKeepsTiles(bs.rest);
    }
  }

  /** No empty stack below the top, no split of one, and every split's shares sum to 1. */
  ghost predicate Collapsed(t: Tree) {
    t.Split? ==>
      && AllCollapsed(t.children) && Count(t.children) != 1
      && (t.children.Branch? ==> FractionSum(t.children) == 1.0)
  }

  ghost predicate AllCollapsed(bs: Branches) {
    bs.Branch? ==> Collapsed(bs.tree) && !IsEmptyStack(bs.tree) && AllCollapsed(bs.rest)
  }

  lemma ScaledSum(bs: Branches, sum: real)
    requires sum != 0.0
    ensures FractionSum(Scaled(bs, sum)) == FractionSum(bs) / sum
  {
    if bs.Branch? {
      ScaledSum(bs.rest, sum);
      var f, r := bs.fraction, FractionSum(bs.rest);
      assert (f + r) / sum == f / sum + r / sum;
    }
  }

  lemma EvenedSum(bs: Branches, share: real)
    ensures FractionSum(Evened(bs, share)) == share * (Count(bs) as real)
  {
    if bs.Branch? {
      EvenedSum(bs.rest, share);
      var n := Count(bs.rest) as real;
      assert share + share * n == share * (n + 1.0);
    }
  }

  /** Renormalised shares sum to exactly 1, whatever they were. */
  lemma NormalizedSum(bs: Branches)
    requires bs.Branch?
    ensures FractionSum(Normalized(bs)) == 1.0
  {
    var sum := FractionSum(bs);
    if sum > EPSILON {
      ScaledSum(bs, sum);
      assert sum / sum == 1.0;
    } else {
      var n := Count(bs) as real;
      EvenedSum(bs, 1.0 / n);
      assert 1.0 / n * n == 1.0;
    }
  }

  lemma NormalizedAllCollapsed(bs: Branches)
    requires AllCollapsed(bs)
    ensures AllCollapsed(Normalized(bs))
  {
    var sum := FractionSum(bs);
    if sum > EPSILON {
      ScaledAllCollapsed(bs, sum);
    } else if bs.Branch? {
      EvenedAllCollapsed(bs, 1.0 / (Count(bs) as real));
    }
  }

  lemma ScaledAllCollapsed(bs: Branches, sum: real)
    requires sum != 0.0 && AllCollapsed(bs)
    ensures AllCollapsed(Scaled(bs, sum))
  {
  }

  lemma EvenedAllCollapsed(bs: Branches, share: real)
    requires AllCollapsed(bs)
    ensures AllCollapsed(Evened(bs, share))
  {
  }

  ghost predicate EachCollapsed(bs: Branches) {
    bs.Branch? ==> Collapsed(bs.tree) && EachCollapsed(bs.rest)
  }

  lemma RetainedAllCollapsed(bs: Branches)
    requires EachCollapsed(bs)
    ensures AllCollapsed(Retained(bs))
  {
  }

  /** Every tree collapses to collapsed form, shares summing to 1 in every split. */
  lemma {:induction false} CollapseReachesForm(t: Tree)
    ensures Collapsed(Collapse(t))
    decreases t, 0
  {
    if t.Split? {
      CollapseAllReachesForm(t.children);
      RetainedAllCollapsed(CollapseAll(t.children));
      var kept := Retained(CollapseAll(t.children));
      NormalizedAllCollapsed(kept);
      NormalizedKeepsTiles(kept);
      if kept.Branch? { NormalizedSum(kept); }
      var n := Normalized(kept);
      if n.Branch? && n.rest.Branch? { assert Count(n) >= 2; }
    }
  }

  lemma {:induction false} CollapseAllReachesForm(bs: Branches)
    ensures EachCollapsed(CollapseAll(bs))
    decreases bs, 1
  {
    if bs.Branch? {
      CollapseReachesForm(bs.tree);
      CollapseAllReachesForm(bs.rest);
    }
  }

  lemma {:induction false} CollapsedIsFixed(t: Tree)
    requires Collapsed(t)
    ensures Collapse(t) == t
    decreases t, 0
  {
    if t.Split? {
      CollapsedAllFixed(t.children);
      NormalizedOfOne(t.children);
      CountOne(t.children);
    }
  }

  lemma CountOne(bs: Branches)
    ensures Count(bs) == 1 <==> bs.Branch? && bs.rest.End?
  {
    if bs.Branch? && bs.rest.Branch? { assert Count(bs) >= 2; }
  }

  lemma NormalizedOfOne(bs: Branches)
    requires bs.Branch? ==> FractionSum(bs) == 1.0
    ensures Normalized(bs) == bs
  {
    assert 0.0 < EPSILON < 1.0;
    ScaledByOne(bs);
  }

  lemma {:induction false} CollapsedAllFixed(bs: Branches)
    requires AllCollapsed(bs)
    ensures CollapseAll(bs) == bs && Retained(bs) == bs
    decreases bs, 1
  {
    if bs.Branch? {
      CollapsedIsFixed(bs.tree);
      CollapsedAllFixed(bs.rest);
    }
  }

  lemma ScaledByOne(bs: Branches)
    ensures Scaled(bs, 1.0) == bs
  {
  }

  /** Collapsing is a projection: a second pass changes nothing. */
  lemma CollapseIdempotent(t: Tree)
    ensures Collapse(Collapse(t)) == Collapse(t)
  {
    CollapseReachesForm(t);
    CollapsedIsFixed(Collapse(t));
  }

  // ---------- Shape ----------

  predicate StackOk(t: Tree)
    requires t.Stack?
  {
    if t.tabs == [] then t.active == 0 else t.active < |t.tabs|
  }

  /** Non-empty stacks with their active tab in range, and splits of at least two. */
  predicate Inner(t: Tree) {
    match t
    case Stack(tabs, active) => active < |tabs|
    case Split(_, children) => Count(children) >= 2 && AllInner(children)
  }

  predicate AllInner(bs: Branches) {
    bs.Branch? ==> Inner(bs.tree) && AllInner(bs.rest)
  }

  /** What the reducer keeps: the empty tree, or one that is canonical throughout. */
  predicate Canonical(t: Tree) {
    t == EMPTY || Inner(t)
  }

  /** The same but for stacks that have just been emptied. */
  predicate Loose(t: Tree) {
    match t
    case Stack(_, _) => StackOk(t)
    case Split(_, children) => Count(children) >= 2 && AllLoose(children)
  }

  predicate AllLoose(bs: Branches) {
    bs.Branch? ==> Loose(bs.tree) && AllLoose(bs.rest)
  }

  function Empties(t: Tree): nat {
    match t
    case Stack(tabs, _) => if tabs == [] then 1 else 0
    case Split(_, children) => EmptiesOf(children)
  }

  function EmptiesOf(bs: Branches): nat {
    if bs.End? then 0 else Empties(bs.tree) + EmptiesOf(bs.rest)
  }

  lemma {:induction false} InnerIsLoose(t: Tree)
    ensures Inner(t) <==> Loose(t) && Empties(t) == 0
    decreases t, 0
  {
    if t.Split? { AllInnerIsLoose(t.children); }
  }

  lemma {:induction false} AllInnerIsLoose(bs: Branches)
    ensures AllInner(bs) <==> AllLoose(bs) && EmptiesOf(bs) == 0
    decreases bs, 1
  {
    if bs.Branch? {
      InnerIsLoose(bs.tree);
      AllInnerIsLoose(bs.rest);
    }
  }

  lemma ScaledAllInner(bs: Branches, sum: real)
    requires sum != 0.0 && AllInner(bs)
    ensures AllInner(Scaled(bs, sum))
  {
  }

  lemma EvenedAllInner(bs: Branches, share: real)
    requires AllInner(bs)
    ensures AllInner(Evened(bs, share))
  {
  }

  lemma NormalizedAllInner(bs: Branches)
    requires AllInner(bs)
    ensures AllInner(Normalized(bs))
  {
    var sum := FractionSum(bs);
    if sum > EPSILON { ScaledAllInner(bs, sum); } else if bs.Branch? { EvenedAllInner(bs, 1.0 / (Count(bs) as real)); }
  }

  /** With at most one stack emptied, collapsing a split restores canonical shape. */
  lemma {:induction false} CollapseCanonical(t: Tree)
    requires Loose(t) && Empties(t) <= 1
    ensures t.Stack? ==> Collapse(t) == t
    ensures t.Split? ==> Inner(Collapse(t))
    ensures Canonical(Collapse(t))
    decreases t, 0
  {
    if t.Split? {
      CollapseAllCanonical(t.children);
      var kept := Retained(CollapseAll(t.children));
      NormalizedAllInner(kept);
      NormalizedKeepsTiles(kept);
    }
  }

  lemma {:induction false} CollapseAllCanonical(bs: Branches)
    requires AllLoose(bs) && EmptiesOf(bs) <= 1
    ensures AllInner(Retained(CollapseAll(bs)))
    ensures Count(Retained(CollapseAll(bs))) >= Count(bs) - EmptiesOf(bs)
    decreases bs, 1
  {
    if bs.Branch? {
      CollapseCanonical(bs.tree);
      CollapseAllCanonical(bs.rest);
      InnerIsLoose(bs.tree);
    }
  }

  // ---------- Where tiles go ----------

  lemma PositionUnique(tabs: seq<Tile>, id: TileId, i: nat)
    requires i < |tabs| && tabs[i].id == id && forall k :: 0 <= k < i ==> tabs[k].id != id
    ensures Position(tabs, id) == i
  {
  }

  lemma PositionAppend(a: seq<Tile>, b: seq<Tile>, id: TileId)
    ensures Position(a + b, id) ==
            if Position(a, id) < |a| then Position(a, id) else |a| + Position(b, id)
  {
    if Position(a, id) < |a| {
      PositionUnique(a + b, id, Position(a, id));
    } else if Position(b, id) < |b| {
      PositionUnique(a + b, id, |a| + Position(b, id));
    }
  }

  lemma WithoutAppend(a: seq<Tile>, b: seq<Tile>, p: nat)
    requires p < |a + b|
    ensures p < |a| ==> Without(a + b, p) == Without(a, p) + b
    ensures p >= |a| ==> Without(a + b, p) == a + Without(b, p - |a|)
  {
    if p < |a| {
      assert (a + b)[p + 1..] == a[p + 1..] + b;
    } else {
      assert (a + b)[p + 1..] == b[p - |a| + 1..];
    }
  }

  /** Removing takes exactly the first tile of that id, in document order, and leaves the rest in place. */
  lemma {:induction false} RemoveTileTakes(t: Tree, id: TileId)
    ensures var p := Position(Tiles(t), id); var r := RemoveTile(t, id);
            if p < |Tiles(t)| then r.tile == Some(Tiles(t)[p]) && Tiles(r.tree) == Without(Tiles(t), p)
            else r.tile.None? && r.tree == t
    decreases t, 0
  {
    if t.Split? { RemoveFromTakes(t.children, id); }
  }

  lemma {:induction false} RemoveFromTakes(bs: Branches, id: TileId)
    ensures var p := Position(TilesOf(bs), id); var r := RemoveFrom(bs, id);
            if p < |TilesOf(bs)| then r.tile == Some(TilesOf(bs)[p]) && TilesOf(r.branches) == Without(TilesOf(bs), p)
            else r.tile.None? && r.branches == bs
    decreases bs, 1
  {
    if bs.Branch? {
      RemoveTileTakes(bs.tree, id);
      RemoveFromTakes(bs.rest, id);
      PositionAppend(Tiles(bs.tree), TilesOf(bs.rest), id);
      var p := Position(TilesOf(bs), id);
      if p < |TilesOf(bs)| { WithoutAppend(Tiles(bs.tree), TilesOf(bs.rest), p); }
    }
  }

  lemma {:induction false} RemoveTileShape(t: Tree, id: TileId)
    requires Inner(t)
    ensures Loose(RemoveTile(t, id).tree) && Empties(RemoveTile(t, id).tree) <= 1
    ensures RemoveTile(t, id).tile.None? ==> Empties(RemoveTile(t, id).tree) == 0
    decreases t, 0
  {
    if t.Split? { RemoveFromShape(t.children, id); }
  }

  lemma {:induction false} RemoveFromShape(bs: Branches, id: TileId)
    requires AllInner(bs)
    ensures AllLoose(RemoveFrom(bs, id).branches) && EmptiesOf(RemoveFrom(bs, id).branches) <= 1
    ensures RemoveFrom(bs, id).tile.None? ==> EmptiesOf(RemoveFrom(bs, id).branches) == 0
    ensures Count(RemoveFrom(bs, id).branches) == Count(bs)
    decreases bs, 1
  {
    if bs.Branch? {
      RemoveTileShape(bs.tree, id);
      RemoveFromShape(bs.rest, id);
      InnerIsLoose(bs.tree);
      AllInnerIsLoose(bs.rest);
    }
  }

  lemma InsertedFront(a: seq<Tile>, b: seq<Tile>, i: nat, tile: Tile)
    requires i <= |a|
    ensures Inserted(a + b, i, tile) == Inserted(a, i, tile) + b
  {
    assert (a + b)[..i] == a[..i];
    assert (a + b)[i..] == a[i..] + b;
  }

  lemma InsertedBack(a: seq<Tile>, b: seq<Tile>, i: nat, tile: Tile)
    requires i <= |b|
    ensures Inserted(a + b, |a| + i, tile) == a + Inserted(b, i, tile)
  {
    assert (a + b)[..|a| + i] == a + b[..i];
    assert (a + b)[|a| + i..] == b[i..];
  }

  lemma InsertedAppend(a: seq<Tile>, b: seq<Tile>, i: nat, tile: Tile)
    requires i <= |a| + |b|
    ensures i <= |a| ==> Inserted(a + b, i, tile) == Inserted(a, i, tile) + b
    ensures i >= |a| ==> Inserted(a + b, i, tile) == a + Inserted(b, i - |a|, tile)
  {
    if i <= |a| { InsertedFront(a, b, i, tile); }
    if i >= |a| { InsertedBack(a, b, i - |a|, tile); }
  }

  /** A half-and-half split of two trees. */
  lemma Pair(a: Tree, b: Tree)
    ensures var bs := Branch(0.5, a, Branch(0.5, b, End));
            && TilesOf(bs) == Tiles(a) + Tiles(b) && Count(bs) == 2
            && (AllLoose(bs) <==> Loose(a) && Loose(b)) && EmptiesOf(bs) == Empties(a) + Empties(b)
  {
    var last := Branch(0.5, b, End);
    assert TilesOf(last) == Tiles(b) + TilesOf(End) && TilesOf(End) == [];
    assert Count(last) == 1 + Count(End);
    assert AllLoose(End) && (AllLoose(last) <==> Loose(b) && AllLoose(End));
    assert EmptiesOf(last) == Empties(b) + EmptiesOf(End);
  }

  /** The place at which splitting beside `target` puts the new tile: before or after its whole stack. */
  ghost function SplitPlace(t: Tree, target: TileId, edge: Edge): nat
    requires Holds(t, target)
  {
    match t
    case Stack(tabs, _) => if Leading(edge) then 0 else |tabs|
    case Split(_, children) => SplitPlaceIn(children, target, edge)
  }

  ghost function SplitPlaceIn(bs: Branches, target: TileId, edge: Edge): nat
    requires Position(TilesOf(bs), target) < |TilesOf(bs)|
  {
    PositionAppend(Tiles(bs.tree), TilesOf(bs.rest), target);
    if Holds(bs.tree, target) then SplitPlace(bs.tree, target, edge)
    else |Tiles(bs.tree)| + SplitPlaceIn(bs.rest, target, edge)
  }

  /** The new tile lands on the edge's side of the target, and nothing else moves. */
  lemma {:induction false} SplitAtTilePlaces(t: Tree, target: TileId, edge: Edge, tile: Tile)
    ensures SplitAtTile(t, target, edge, tile).changed <==> Holds(t, target)
    ensures !Holds(t, target) ==> SplitAtTile(t, target, edge, tile).tree == t
    ensures Holds(t, target) ==>
              PlacedBeside(Tiles(t), Tiles(SplitAtTile(t, target, edge, tile).tree), Position(Tiles(t), target),
                           SplitPlace(t, target, edge), Leading(edge), tile)
    decreases t, 0
  {
    if t.Split? {
      SplitInPlaces(t.children, target, edge, tile);
    } else if Holds(t, target) {
      Pair(Stack([tile], 0), t);
      Pair(t, Stack([tile], 0));
    }
  }

  /** The tile went in at `k`, on the right side of position `p`. */
  ghost predicate PlacedBeside(before: seq<Tile>, after: seq<Tile>, p: nat, k: nat, lead: bool, tile: Tile) {
    k <= |before| && after == Inserted(before, k, tile) && (if lead then k <= p else k > p)
  }

  lemma PlacedFront(a: seq<Tile>, b: seq<Tile>, a': seq<Tile>, id: TileId, k: nat, lead: bool, tile: Tile)
    requires Position(a, id) < |a| && PlacedBeside(a, a', Position(a, id), k, lead, tile)
    ensures PlacedBeside(a + b, a' + b, Position(a + b, id), k, lead, tile)
  {
    PositionAppend(a, b, id);
    InsertedFront(a, b, k, tile);
  }

  lemma PlacedBack(a: seq<Tile>, b: seq<Tile>, b': seq<Tile>, id: TileId, k: nat, lead: bool, tile: Tile)
    requires Position(a, id) == |a| && PlacedBeside(b, b', Position(b, id), k, lead, tile)
    ensures PlacedBeside(a + b, a + b', Position(a + b, id), |a| + k, lead, tile)
  {
    PositionAppend(a, b, id);
    InsertedBack(a, b, k, tile);
  }

  /** What splitting beside a tile does to a list of branches. */
  ghost predicate SplitsIn(bs: Branches, target: TileId, edge: Edge, tile: Tile) {
    var held := Position(TilesOf(bs), target) < |TilesOf(bs)|;
    var e := SplitIn(bs, target, edge, tile);
    && (e.changed <==> held)
    && (!held ==> e.branches == bs)
    && (held ==> PlacedBeside(TilesOf(bs), TilesOf(e.branches), Position(TilesOf(bs), target),
                              SplitPlaceIn(bs, target, edge), Leading(edge), tile))
  }

  lemma SplitInFirst(f: real, t: Tree, rest: Branches, t': Tree, target: TileId, edge: Edge, tile: Tile)
    requires Holds(t, target) && SplitAtTile(t, target, edge, tile) == Edit(t', true)
    requires PlacedBeside(Tiles(t), Tiles(t'), Position(Tiles(t), target), SplitPlace(t, target, edge), Leading(edge),
                          tile)
    ensures SplitsIn(Branch(f, t, rest), target, edge, tile)
  {
    PositionAppend(Tiles(t), TilesOf(rest), target);
    PlacedFront(Tiles(t), TilesOf(rest), Tiles(t'), target, SplitPlace(t, target, edge), Leading(edge), tile);
  }

  lemma SplitSkips(f: real, t: Tree, rest: Branches, target: TileId, edge: Edge, tile: Tile)
    requires !Holds(t, target) && SplitAtTile(t, target, edge, tile) == Edit(t, false)
    ensures var e := SplitIn(rest, target, edge, tile);
            SplitIn(Branch(f, t, rest), target, edge, tile) == BranchesEdit(Branch(f, t, e.branches), e.changed)
    ensures Position(Tiles(t) + TilesOf(rest), target) == |Tiles(t)| + Position(TilesOf(rest), target)
    ensures Position(TilesOf(rest), target) < |TilesOf(rest)| ==>
              SplitPlaceIn(Branch(f, t, rest), target, edge) == |Tiles(t)| + SplitPlaceIn(rest, target, edge)
  {
    PositionAppend(Tiles(t), TilesOf(rest), target);
  }

  lemma SplitInLater(f: real, t: Tree, rest: Branches, target: TileId, edge: Edge, tile: Tile)
    requires !Holds(t, target) && SplitAtTile(t, target, edge, tile) == Edit(t, false)
    requires SplitsIn(rest, target, edge, tile)
    ensures SplitsIn(Branch(f, t, rest), target, edge, tile)
  {
    var e := SplitIn(rest, target, edge, tile);
    SplitSkips(f, t, rest, target, edge, tile);
    if e.changed {
      PlacedBack(Tiles(t), TilesOf(rest), TilesOf(e.branches), target, SplitPlaceIn(rest, target, edge),
                 Leading(edge), tile);
    }
  }

  lemma {:induction false} SplitInPlaces(bs: Branches, target: TileId, edge: Edge, tile: Tile)
    ensures SplitsIn(bs, target, edge, tile)
    decreases bs, 1
  {
    if bs.Branch? {
      SplitAtTilePlaces(bs.tree, target, edge, tile);
      if Holds(bs.tree, target) {
        SplitInFirst(bs.fraction, bs.tree, bs.rest, SplitAtTile(bs.tree, target, edge, tile).tree, target, edge, tile);
      } else {
        SplitInPlaces(bs.rest, target, edge, tile);
        SplitInLater(bs.fraction, bs.tree, bs.rest, target, edge, tile);
      }
    }
  }

  lemma {:induction false} SplitAtTileShape(t: Tree, target: TileId, edge: Edge, tile: Tile)
    requires Loose(t)
    ensures Loose(SplitAtTile(t, target, edge, tile).tree)
    ensures Empties(SplitAtTile(t, target, edge, tile).tree) == Empties(t)
    decreases t, 0
  {
    if t.Split? {
      SplitInShape(t.children, target, edge, tile);
    } else if Position(t.tabs, target) < |t.tabs| {
      Pair(Stack([tile], 0), t);
      Pair(t, Stack([tile], 0));
    }
  }

  lemma {:induction false} SplitInShape(bs: Branches, target: TileId, edge: Edge, tile: Tile)
    requires AllLoose(bs)
    ensures AllLoose(SplitIn(bs, target, edge, tile).branches)
    ensures EmptiesOf(SplitIn(bs, target, edge, tile).branches) == EmptiesOf(bs)
    ensures Count(SplitIn(bs, target, edge, tile).branches) == Count(bs)
    decreases bs, 1
  {
    if bs.Branch? {
      SplitAtTileShape(bs.tree, target, edge, tile);
      SplitInShape(bs.rest, target, edge, tile);
    }
  }

  /** A docked tab lands right after its target, and nothing else moves. */
  lemma {:induction false} InsertTabPlaces(t: Tree, target: TileId, tile: Tile)
    ensures InsertTabAfter(t, target, tile).changed <==> Holds(t, target) && !Holds(t, tile.id)
    ensures !InsertTabAfter(t, target, tile).changed ==> InsertTabAfter(t, target, tile).tree == t
    ensures InsertTabAfter(t, target, tile).changed ==>
              Tiles(InsertTabAfter(t, target, tile).tree) == Inserted(Tiles(t), Position(Tiles(t), target) + 1, tile)
    ensures Inner(t) ==> Inner(InsertTabAfter(t, target, tile).tree)
    decreases t, 0
  {
    if t.Split? && !Holds(t, tile.id) { InsertTabInPlaces(t.children, target, tile); }
  }

  lemma TabFront(a: seq<Tile>, b: seq<Tile>, id: TileId, tile: Tile)
    requires Position(a, id) < |a|
    ensures Position(a + b, id) < |a + b|
    ensures Inserted(a, Position(a, id) + 1, tile) + b == Inserted(a + b, Position(a + b, id) + 1, tile)
  {
    PositionAppend(a, b, id);
    InsertedFront(a, b, Position(a, id) + 1, tile);
  }

  lemma TabBack(a: seq<Tile>, b: seq<Tile>, id: TileId, tile: Tile)
    requires Position(a, id) == |a| && Position(b, id) < |b|
    ensures Position(a + b, id) < |a + b|
    ensures a + Inserted(b, Position(b, id) + 1, tile) == Inserted(a + b, Position(a + b, id) + 1, tile)
  {
    PositionAppend(a, b, id);
    InsertedBack(a, b, Position(b, id) + 1, tile);
  }

  /** What inserting after a tab does to a list of branches that does not hold the tile yet. */
  ghost predicate TabsIn(bs: Branches, target: TileId, tile: Tile) {
    var held := Position(TilesOf(bs), target) < |TilesOf(bs)|;
    var e := InsertTabIn(bs, target, tile);
    && (e.changed <==> held)
    && (!held ==> e.branches == bs)
    && (held ==> TilesOf(e.branches) == Inserted(TilesOf(bs), Position(TilesOf(bs), target) + 1, tile))
    && (AllInner(bs) ==> AllInner(e.branches)) && Count(e.branches) == Count(bs)
  }

  lemma TabInFirst(f: real, t: Tree, rest: Branches, t': Tree, target: TileId, tile: Tile)
    requires Holds(t, target) && InsertTabAfter(t, target, tile) == Edit(t', true)
    requires Tiles(t') == Inserted(Tiles(t), Position(Tiles(t), target) + 1, tile) && (Inner(t) ==> Inner(t'))
    ensures TabsIn(Branch(f, t, rest), target, tile)
  {
    TabFront(Tiles(t), TilesOf(rest), target, tile);
  }

  lemma TabInLater(f: real, t: Tree, rest: Branches, target: TileId, tile: Tile)
    requires !Holds(t, target) && InsertTabAfter(t, target, tile) == Edit(t, false) && TabsIn(rest, target, tile)
    ensures TabsIn(Branch(f, t, rest), target, tile)
  {
    PositionAppend(Tiles(t), TilesOf(rest), target);
    if Position(TilesOf(rest), target) < |TilesOf(rest)| { TabBack(Tiles(t), TilesOf(rest), target, tile); }
  }

  lemma {:induction false} InsertTabInPlaces(bs: Branches, target: TileId, tile: Tile)
    requires Position(TilesOf(bs), tile.id) == |TilesOf(bs)|
    ensures TabsIn(bs, target, tile)
    decreases bs, 1
  {
    if bs.Branch? {
      PositionAppend(Tiles(bs.tree), TilesOf(bs.rest), tile.id);
      InsertTabPlaces(bs.tree, target, tile);
      if Holds(bs.tree, target) {
        TabInFirst(bs.fraction, bs.tree, bs.rest, InsertTabAfter(bs.tree, target, tile).tree, target, tile);
      } else {
        InsertTabInPlaces(bs.rest, target, tile);
        TabInLater(bs.fraction, bs.tree, bs.rest, target, tile);
      }
    }
  }

  /** Showing a tab moves no tile and keeps the shape. */
  lemma {:induction false} ActivateKeeps(t: Tree, id: TileId)
    ensures Tiles(Activate(t, id).tree) == Tiles(t)
    ensures Inner(t) ==> Inner(Activate(t, id).tree)
    ensures !Activate(t, id).changed ==> Activate(t, id).tree == t
    decreases t, 0
  {
    if t.Split? { ActivateInKeeps(t.children, id); }
  }

  lemma {:induction false} ActivateInKeeps(bs: Branches, id: TileId)
    ensures TilesOf(ActivateIn(bs, id).branches) == TilesOf(bs) && Count(ActivateIn(bs, id).branches) == Count(bs)
    ensures AllInner(bs) ==> AllInner(ActivateIn(bs, id).branches)
    ensures !ActivateIn(bs, id).changed ==> ActivateIn(bs, id).branches == bs
    decreases bs, 1
  {
    if bs.Branch? {
      ActivateKeeps(bs.tree, id);
      ActivateInKeeps(bs.rest, id);
    }
  }

  // ---------- Edits at a path ----------

  /** Replacing a node by one with the same tiles and a shape as good keeps tiles and shape. */
  lemma {:induction false} ReplaceKeeps(t: Tree, path: seq<nat>, node: Tree)
    requires NodeAt(t, path).Some? && Tiles(node) == Tiles(NodeAt(t, path).value)
    requires Inner(NodeAt(t, path).value) ==> Inner(node)
    ensures Tiles(ReplaceAt(t, path, node)) == Tiles(t)
    ensures Inner(t) ==> Inner(ReplaceAt(t, path, node))
    decreases t, 0
  {
    if path != [] { ReplaceInKeeps(t.children, path[0], path[1..], node); }
  }

  lemma {:induction false} ReplaceInKeeps(bs: Branches, i: nat, path: seq<nat>, node: Tree)
    requires NodeIn(bs, i, path).Some? && Tiles(node) == Tiles(NodeIn(bs, i, path).value)
    requires Inner(NodeIn(bs, i, path).value) ==> Inner(node)
    ensures TilesOf(ReplaceIn(bs, i, path, node)) == TilesOf(bs) && Count(ReplaceIn(bs, i, path, node)) == Count(bs)
    ensures AllInner(bs) ==> AllInner(ReplaceIn(bs, i, path, node))
    decreases bs, 1
  {
    if i == 0 { ReplaceKeeps(bs.tree, path, node); } else { ReplaceInKeeps(bs.rest, i - 1, path, node); }
  }

  lemma WithFractionsKeeps(bs: Branches, fractions: seq<real>)
    ensures TilesOf(WithFractions(bs, fractions)) == TilesOf(bs) && Count(WithFractions(bs, fractions)) == Count(bs)
    ensures AllInner(bs) ==> AllInner(WithFractions(bs, fractions))
  {
  }

  lemma SetFractionsKeeps(t: Tree, path: seq<nat>, fractions: seq<real>)
    ensures Tiles(SetFractions(t, path, fractions).tree) == Tiles(t)
    ensures Inner(t) ==> Inner(SetFractions(t, path, fractions).tree)
  {
    var node := NodeAt(t, path);
    if node.Some? && node.value.Split? && Count(node.value.children) == |fractions| {
      WithFractionsKeeps(node.value.children, fractions);
      ReplaceKeeps(t, path, Split(node.value.axis, WithFractions(node.value.children, fractions)));
    }
  }

  /** A stack stays a stack when a tile leaves the tree, so a drop path stays good. */
  lemma {:induction false} RemoveKeepsStacks(t: Tree, id: TileId, path: seq<nat>)
    requires NodeAt(t, path).Some? && NodeAt(t, path).value.Stack?
    ensures var node := NodeAt(RemoveTile(t, id).tree, path); node.Some? && node.value.Stack?
    decreases t, 0
  {
    if path != [] { RemoveFromKeepsStacks(t.children, id, path[0], path[1..]); }
  }

  lemma {:induction false} RemoveFromKeepsStacks(bs: Branches, id: TileId, i: nat, path: seq<nat>)
    requires NodeIn(bs, i, path).Some? && NodeIn(bs, i, path).value.Stack?
    ensures var node := NodeIn(RemoveFrom(bs, id).branches, i, path); node.Some? && node.value.Stack?
    decreases bs, 1
  {
    if i == 0 { RemoveKeepsStacks(bs.tree, id, path); } else { RemoveFromKeepsStacks(bs.rest, id, i - 1, path); }
  }

  /** Dropping into a stack inserts the tile somewhere, empties nothing and keeps the shape. */
  lemma {:induction false} DropPlaces(t: Tree, path: seq<nat>, i: nat, tile: Tile) returns (k: nat)
    requires NodeAt(t, path).Some? && NodeAt(t, path).value.Stack? && i <= |NodeAt(t, path).value.tabs|
    ensures var next := ReplaceAt(t, path, Stack(Inserted(NodeAt(t, path).value.tabs, i, tile), i));
            && k <= |Tiles(t)| && Tiles(next) == Inserted(Tiles(t), k, tile)
            && (Loose(t) ==> Loose(next)) && Empties(next) <= Empties(t)
    decreases t, 0
  {
    if path == [] {
      k := i;
    } else {
      k := DropInPlaces(t.children, path[0], path[1..], i, tile);
    }
  }

  lemma {:induction false} DropInPlaces(bs: Branches, j: nat, path: seq<nat>, i: nat, tile: Tile) returns (k: nat)
    requires NodeIn(bs, j, path).Some? && NodeIn(bs, j, path).value.Stack? && i <= |NodeIn(bs, j, path).value.tabs|
    ensures var next := ReplaceIn(bs, j, path, Stack(Inserted(NodeIn(bs, j, path).value.tabs, i, tile), i));
            && k <= |TilesOf(bs)| && TilesOf(next) == Inserted(TilesOf(bs), k, tile)
            && (AllLoose(bs) ==> AllLoose(next)) && EmptiesOf(next) <= EmptiesOf(bs) && Count(next) == Count(bs)
    decreases bs, 1
  {
    if j == 0 {
      k := DropPlaces(bs.tree, path, i, tile);
    } else {
      k := DropInPlaces(bs.rest, j - 1, path, i, tile);
      k := |Tiles(bs.tree)| + k;
    }
    InsertedAppend(Tiles(bs.tree), TilesOf(bs.rest), k, tile);
  }
}
