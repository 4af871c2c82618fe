/**
 The workspace of crates/cambium/workbench/float.rs: the tiled tree plus the float layer under
 one rule, that every tile is in exactly one place. Geometry is over real numbers.
 */
module Workspace {
  import opened Wrappers
  import opened TileTree
  import StableSort

  datatype Rect = Rect(x: real, y: real, width: real, height: real)

  datatype Constraints = Constraints(minWidth: real, minHeight: real, maxWidth: Option<real>, maxHeight: Option<real>)

  const UNCONSTRAINED := Constraints(0.0, 0.0, None, None)

  datatype Floating = Floating(tile: Tile, rect: Rect, constraints: Constraints, z: nat, pinned: bool, visible: bool)

  // ---------- Geometry ----------

  function Max(a: real, b: real): real { if a >= b then a else b }
  function Min(a: real, b: real): real { if a <= b then a else b }

  function Gap(a: real, b: real): real { if a >= b then a - b else b - a }

  /** No point between the bounds lies nearer to the wanted one. */
  ghost predicate Nearest(want: real, lo: real, hi: real, r: real) {
    forall x: real :: lo <= x <= hi ==> Gap(want, r) <= Gap(want, x)
  }

  /** `f32::clamp`, which is only defined when the bounds are in order. */
  function Clamp(v: real, lo: real, hi: real): (r: real)
    requires lo <= hi
  {
    if v < lo then lo else if v > hi then hi else v
  }

  function ConstrainedExtent(available: real, proportion: real, min: real, max: Option<real>): (r: real)
    ensures 0.0 <= r <= Max(available, 0.0)
    ensures Min(Max(min, 0.0), Max(available, 0.0)) <= r
    ensures max.Some? ==> r <= Max(max.value, Min(Max(min, 0.0), Max(available, 0.0)))
    ensures WithinBounds(Share(available, proportion), available, min, max) ==> r == Share(available, proportion)
    ensures Nearest(Share(available, proportion), Min(Max(min, 0.0), Max(available, 0.0)),
                    Min(if max.Some? then Max(max.value, min) else Max(available, 0.0), Max(available, 0.0)), r)
  {
    Bounded(Share(available, proportion), Max(available, 0.0), Max(min, 0.0), max)
  }

  /** The part of the room asked for. */
  function Share(available: real, proportion: real): real {
    Max(available, 0.0) * Max(proportion, 0.0)
  }

  predicate WithinBounds(want: real, available: real, min: real, max: Option<real>) {
    Max(min, 0.0) <= want <= Max(available, 0.0) && (max.Some? ==> want <= max.value)
  }

  /** The nearest extent to the wanted one between the minimum and the maximum, both cut to the room. */
  function Bounded(want: real, room: real, min: real, max: Option<real>): (r: real)
    requires 0.0 <= room && 0.0 <= min
    ensures Min(min, room) <= r <= room
    ensures max.Some? ==> r <= Max(max.value, Min(min, room))
    ensures min <= want <= room && (max.Some? ==> want <= max.value) ==> r == want
    ensures Nearest(want, Min(min, room), Min(if max.Some? then Max(max.value, min) else room, room), r)
  {
    var lo := Min(min, room);
    Clamp(want, lo, Min(Max(if max.Some? then max.value else room, lo), room))
  }

  /** Where an extent begins: at the wanted place, or as near to it as the room allows. */
  function Corner(want: real, start: real, room: real, extent: real): (r: real)
    requires 0.0 <= extent <= Max(room, 0.0)
    ensures start <= r && r + extent <= start + Max(room, 0.0)
    ensures Nearest(want, start, start + Max(room - extent, 0.0), r)
    ensures start <= want && want + extent <= start + room ==> r == want
  {
    Clamp(want, start, Max(start + room - extent, start))
  }

  /** The pixel rectangle of a float inside an area: never outside it, never below its minimum where that fits. */
  function Resolve(f: Floating, area: Rect): (r: Rect)
    ensures area.x <= r.x && r.x + r.width <= area.x + Max(area.width, 0.0)
    ensures area.y <= r.y && r.y + r.height <= area.y + Max(area.height, 0.0)
    ensures r.width >= Min(Max(f.constraints.minWidth, 0.0), Max(area.width, 0.0))
    ensures r.height >= Min(Max(f.constraints.minHeight, 0.0), Max(area.height, 0.0))
    ensures Nearest(area.x + f.rect.x * area.width, area.x, area.x + Max(area.width - r.width, 0.0), r.x)
    ensures Nearest(area.y + f.rect.y * area.height, area.y, area.y + Max(area.height - r.height, 0.0), r.y)
    ensures r.width == ConstrainedExtent(area.width, f.rect.width, f.constraints.minWidth, f.constraints.maxWidth)
    ensures r.height == ConstrainedExtent(area.height, f.rect.height, f.constraints.minHeight, f.constraints.maxHeight)
    ensures var x := area.x + f.rect.x * area.width; area.x <= x && x + r.width <= area.x + area.width ==> r.x == x
    ensures var y := area.y + f.rect.y * area.height; area.y <= y && y + r.height <= area.y + area.height ==> r.y == y
  {
    var w := ConstrainedExtent(area.width, f.rect.width, f.constraints.minWidth, f.constraints.maxWidth);
    var h := ConstrainedExtent(area.height, f.rect.height, f.constraints.minHeight, f.constraints.maxHeight);
    Rect(Corner(area.x + f.rect.x * area.width, area.x, area.width, w),
         Corner(area.y + f.rect.y * area.height, area.y, area.height, h), w, h)
  }

  // ---------- The float layer as a list ----------

  function FloatTiles(fs: seq<Floating>): seq<Tile> {
    seq(|fs|, i requires 0 <= i < |fs| => fs[i].tile)
  }

  function FloatAt(fs: seq<Floating>, id: TileId): nat {
    Position(FloatTiles(fs), id)
  }

  predicate IsFloating(fs: seq<Floating>, id: TileId) {
    FloatAt(fs, id) < |fs|
  }

  function Removed(fs: seq<Floating>, i: nat): seq<Floating>
    requires i < |fs|
  {
    fs[..i] + fs[i + 1..]
  }

  function TopZ(fs: seq<Floating>): nat {
    if fs == [] then 0 else
      var rest := TopZ(fs[1..]);
      if fs[0].z >= rest then fs[0].z else rest
  }

  /** Back to front: by stacking order, then id. */
  predicate Below(a: Floating, b: Floating) {
    a.z < b.z || (a.z == b.z && a.tile.id <= b.tile.id)
  }

  const BELOW: (Floating, Floating) -> bool := (a: Floating, b: Floating) => Below(a, b)

  function SortByZ(fs: seq<Floating>): seq<Floating> {
    StableSort.Sort(BELOW, fs)
  }

  function Renumbered(fs: seq<Floating>): seq<Floating> {
    seq(|fs|, i requires 0 <= i < |fs| => fs[i].(z := i + 1))
  }

  function NormalizeZ(fs: seq<Floating>): seq<Floating> {
    Renumbered(SortByZ(fs))
  }

  function Raised(fs: seq<Floating>, id: TileId): seq<Floating> {
    var sorted := NormalizeZ(fs);
    var i := FloatAt(sorted, id);
    if i < |sorted| then NormalizeZ(LiftedAt(sorted, i)) else sorted
  }

  function LiftedAt(fs: seq<Floating>, i: nat): seq<Floating>
    requires i < |fs|
  {
    fs[i := fs[i].(z := |fs| + 1)]
  }

  // ---------- Events ----------

  datatype DockTarget = TiledRoot | Beside(target: TileId, edge: Edge) | Tab(target: TileId)

  datatype FloatEvent =
    | Float(tile: TileId, rect: Rect)
    | Dock(tile: TileId, target: DockTarget)
    | Raise(tile: TileId)
    | SetRect(tile: TileId, rect: Rect)
    | SetConstraints(tile: TileId, constraints: Constraints)
    | SetPinned(tile: TileId, pinned: bool)
    | SetVisible(tile: TileId, visible: bool)

  datatype Event = TileE(tile: TileEvent) | FloatE(float: FloatEvent)

  datatype Outcome = Applied | Unchanged | TearOut(tile: TileId)

  datatype State = State(tiled: Tree, floating: seq<Floating>)

  /** Every tile at either station. */
  function AllTiles(s: State): seq<Tile> {
    Tiles(s.tiled) + FloatTiles(s.floating)
  }

  function FloatStep(s: State, id: TileId, rect: Rect): State {
    var i := FloatAt(s.floating, id);
    if i < |s.floating| then
      var prior := s.floating[i];
      var left := Removed(s.floating, i);
      State(s.tiled, left + [Floating(prior.tile, rect, prior.constraints, TopZ(left) + 1, prior.pinned,
                                      prior.visible)])
    else
      var r := RemoveTile(s.tiled, id);
      if r.tile.None? then s
      else State(Collapse(r.tree),
                 s.floating + [Floating(r.tile.value, rect, UNCONSTRAINED, TopZ(s.floating) + 1, false, true)])
  }

  function Docked(t: Tree, tile: Tile, target: DockTarget): Edit {
    match target
    case TiledRoot => if Tiles(t) != [] then Edit(t, false) else Edit(Stack([tile], 0), true)
    case Beside(beside, edge) => SplitBeside(t, beside, edge, tile)
    case Tab(after) => InsertTabAfter(t, after, tile)
  }

  function DockStep(s: State, id: TileId, target: DockTarget): State {
    var i := FloatAt(s.floating, id);
    if i == |s.floating| then s
    else
      var e := Docked(s.tiled, s.floating[i].tile, target);
      if e.changed then State(e.tree, Removed(s.floating, i)) else s
  }

  function Tuned(f: Floating, event: FloatEvent): Floating {
    match event
    case SetRect(_, rect) => f.(rect := rect)
    case SetConstraints(_, constraints) => f.(constraints := constraints)
    case SetPinned(_, pinned) => f.(pinned := pinned)
    case SetVisible(_, visible) => f.(visible := visible)
    case _ => f
  }

  function FloatLayerStep(s: State, event: FloatEvent): State {
    match event
    case Float(id, rect) => FloatStep(s, id, rect)
    case Dock(id, target) => DockStep(s, id, target)
    case Raise(id) => if IsFloating(s.floating, id) then s.(floating := Raised(s.floating, id)) else s
    case _ =>
      var i := FloatAt(s.floating, event.tile);
      if i < |s.floating| then s.(floating := s.floating[i := Tuned(s.floating[i], event)]) else s
  }

  /** Keep the floats whose tile has another id. */
  function KeepOthers(fs: seq<Floating>, id: TileId): seq<Floating> {
    if fs == [] then [] else (if fs[0].tile.id != id then [fs[0]] else []) + KeepOthers(fs[1..], id)
  }

  function Step(s: State, event: Event): State {
    match event
    case FloatE(float) => FloatLayerStep(s, float)
    case TileE(tile) =>
      if tile.Dragged? && tile.to.Outside? then s
      else if tile.Closed? && IsFloating(s.floating, tile.id) then s.(floating := KeepOthers(s.floating, tile.id))
      else if tile.Activated? && IsFloating(s.floating, tile.id) then s.(floating := Raised(s.floating, tile.id))
      else s.(tiled := ApplyTile(s.tiled, tile).tree)
  }
}
