/** The map and its entity store (AttoAsset.h and AttoAsset.cpp): entity ids,
    the entity layout, the fixed array of unit slots with its create / get /
    destroy operations, the isometric tile projection, and map construction
    from a tile string. A pointer into the slot array is modelled as the index
    of the slot it points to. */
module MapStore {
  import opened Wrappers
  import opened AttoMath
  import opened Assets
  import opened Grid

  /////////////////////////////////////////////////////////////////////////////
  // Entity ids

  datatype EntityId = EntityId(index: i32, generation: i32) {
    /** `operator ==`: both fields are compared. */
    predicate Equals(other: EntityId) {
      index == other.index && generation == other.generation
    }

    /** `operator !=`: the negation of `==`. */
    predicate NotEquals(other: EntityId) {
      !Equals(other)
    }
  }

  const ENTITY_ID_INVALID: EntityId := EntityId(-1, -1)

  /** The two operators are exactly equality and disequality of the handle. */
  lemma EntityIdOperators(a: EntityId, b: EntityId)
    ensures a.Equals(b) <==> a == b
    ensures a.NotEquals(b) <==> a != b
  {
  }

  /////////////////////////////////////////////////////////////////////////////
  // Entity layout

  /** A sprite slot of an entity; the sprite pointer is the index of a
      registered sprite, None for null. */
  datatype EntitySprite = EntitySprite(active: bool, sprite: Option<nat>, currentFrameIndex: i32,
                                       animationDuration: real, animationPlayhead: real)

  datatype UnitTargetType = UNIT_TARGET_TYPE_NONE | UNIT_TARGET_TYPE_GROUND_POS | UNIT_TARGET_TYPE_UNIT

  /** The ground position and the unit id share storage in the engine; here
      they are two fields. */
  datatype UnitTarget = UnitTarget(kind: UnitTargetType, groundPos: Vec2, unitId: EntityId)

  datatype Unit = Unit(active: bool, isSelected: bool, teamNumber: bool, localCollider: Circle,
                       target: UnitTarget, timeToNextFire: real, timeFiring: real,
                       steering: Vec2, health: i32)

  datatype Blocker = Blocker(active: bool, collider: Polygon)

  datatype Entity = Entity(id: EntityId, pos: Vec2, vel: Vec2, rotation: real,
                           localBoundingBox: BoxBounds, sprite1: EntitySprite, sprite2: EntitySprite,
                           unit: Unit, blocker: Blocker)

  const ZERO_SPRITE: EntitySprite := EntitySprite(false, None, 0, 0.0, 0.0)

  /** `Entity entity = {}`: every field zero, the id included. */
  const ZERO_ENTITY: Entity :=
    Entity(EntityId(0, 0), ZERO, ZERO, 0.0, BoxBounds(ZERO, ZERO), ZERO_SPRITE, ZERO_SPRITE,
           Unit(false, false, false, Circle(ZERO, 0.0),
                UnitTarget(UNIT_TARGET_TYPE_NONE, ZERO, EntityId(0, 0)), 0.0, 0.0, ZERO, 0),
           Blocker(false, PolygonCollider([])))

  /** What a destroyed slot holds: zeroed, with the invalid id. */
  const FREE_ENTITY: Entity := ZERO_ENTITY.(id := ENTITY_ID_INVALID)

  /////////////////////////////////////////////////////////////////////////////
  // Colliders in world space

  /** LeEngine::EntityGetBoundingBox: the local box moved to the entity's
      position; its size is kept and a local point p lies in the local box
      exactly when p + pos lies in the result. */
  function EntityGetBoundingBox(entity: Entity): (r: BoxBounds)
    ensures r.max.Minus(r.min) == entity.localBoundingBox.max.Minus(entity.localBoundingBox.min)
    ensures forall p :: entity.localBoundingBox.Contains(p) <==> r.Contains(p.Plus(entity.pos))
  {
    entity.localBoundingBox.Translate(entity.pos)
  }

  /** LeEngine::UnitGetCollider: the local circle moved to the unit's position;
      the radius is kept, and the distance of a local point p to the local
      centre is the distance of p + pos to the world centre. */
  function UnitGetCollider(entity: Entity): (r: Circle)
    ensures r.rad == entity.unit.localCollider.rad
    ensures forall p :: DistanceSquared(p, entity.unit.localCollider.pos) == DistanceSquared(p.Plus(entity.pos), r.pos)
  {
    var c := entity.unit.localCollider;
    Circle(c.pos.Plus(entity.pos), c.rad)
  }

  /** Moving two units by the same offset does not change whether their
      world-space colliders intersect. */
  lemma UnitCollidersShiftTogether(a: Entity, b: Entity, d: Vec2)
    ensures UnitGetCollider(a).Intersects(UnitGetCollider(b))
        <==> UnitGetCollider(a.(pos := a.pos.Plus(d))).Intersects(UnitGetCollider(b.(pos := b.pos.Plus(d))))
  {
    var ca, cb := UnitGetCollider(a), UnitGetCollider(b);
    var da, db := UnitGetCollider(a.(pos := a.pos.Plus(d))), UnitGetCollider(b.(pos := b.pos.Plus(d)));
    assert da.pos.Minus(db.pos) == ca.pos.Minus(cb.pos);
  }

  /** LeEngine::BlockerGetCollider: the blocker's polygon with every vertex
      moved by the entity's position; the vertex count is kept. */
  function BlockerGetCollider(entity: Entity): (r: Polygon)
    ensures |r.vertices| == |entity.blocker.collider.vertices|
    ensures forall i :: 0 <= i < |r.vertices| ==> r.vertices[i] == entity.blocker.collider.vertices[i].Plus(entity.pos)
  {
    Translated(entity.blocker.collider, entity.pos)
  }

  /////////////////////////////////////////////////////////////////////////////
  // Isometric projection

  /** LeEngine::MapTilePosToWorldPos with the map's half tile sizes. With
      non-zero half sizes the tile position can be recovered from the world
      position, so the projection is one-to-one. */
  function TileToWorld(halfWidth: i32, halfHeight: i32, tilePos: Vec2): (r: Vec2)
    ensures halfWidth != 0 && halfHeight != 0 ==>
      tilePos.x == (r.x / halfWidth as real - r.y / halfHeight as real) / 2.0 &&
      tilePos.y == -(r.x / halfWidth as real + r.y / halfHeight as real) / 2.0
  {
    Vec2((tilePos.x - tilePos.y) * halfWidth as real, -((tilePos.x + tilePos.y) * halfHeight as real))
  }

  /** Distinct tiles land on distinct world positions. */
  lemma TileToWorldInjective(halfWidth: i32, halfHeight: i32, a: Vec2, b: Vec2)
    requires halfWidth != 0 && halfHeight != 0
    ensures TileToWorld(halfWidth, halfHeight, a) == TileToWorld(halfWidth, halfHeight, b) <==> a == b
  {
  }

  /////////////////////////////////////////////////////////////////////////////
  // The unit slots as a value

  const UNIT_CAPACITY: nat := 2048
  const TILE_CAPACITY: nat := 1024

  /** The lowest slot holding the invalid id, if any. */
  function FirstFreeSlot(slots: seq<Entity>): (r: Option<nat>)
    ensures r.Some? ==> r.value < |slots| && slots[r.value].id == ENTITY_ID_INVALID
    ensures r.Some? ==> forall j :: 0 <= j < r.value ==> slots[j].id != ENTITY_ID_INVALID
    ensures r.None? <==> forall j :: 0 <= j < |slots| ==> slots[j].id != ENTITY_ID_INVALID
  {
    if |slots| == 0 then None
    else if slots[0].id == ENTITY_ID_INVALID then Some(0)
    else match FirstFreeSlot(slots[1..])
      case None => None
      case Some(i) => Some(i + 1)
  }

  /** The slots after MapCreateEntity: the first free slot gets the id
      {index: slot, generation: 1}; a full store is left alone. */
  function AfterCreate(slots: seq<Entity>): (r: seq<Entity>)
    requires |slots| == UNIT_CAPACITY
    ensures |r| == |slots|
  {
    match FirstFreeSlot(slots)
    case None => slots
    case Some(i) => slots[i := slots[i].(id := EntityId(i, 1))]
  }

  /** The slot a handle resolves to (MapGetEntity): none for the invalid id,
      otherwise slot `id.index` when the id stored there equals the handle. */
  function Lookup(slots: seq<Entity>, id: EntityId): Option<nat>
    requires id == ENTITY_ID_INVALID || 0 <= id.index < |slots|
  {
    if id != ENTITY_ID_INVALID && slots[id.index].id == id then Some(id.index) else None
  }

  /** A handle the store may be asked to look up or destroy. */
  predicate InRange(id: EntityId) {
    id == ENTITY_ID_INVALID || 0 <= id.index < UNIT_CAPACITY
  }

  /** The slots after MapDestroyEntity: a live entity's slot is zeroed and
      marked free; a null pointer, the invalid id or an id that no longer
      matches its slot changes nothing. */
  function AfterDestroy(slots: seq<Entity>, entity: Option<Entity>): (r: seq<Entity>)
    requires |slots| == UNIT_CAPACITY
    requires entity.Some? ==> InRange(entity.value.id)
    ensures |r| == |slots|
  {
    match entity
    case None => slots
    case Some(e) =>
      if e.id != ENTITY_ID_INVALID && e.id == slots[e.id.index].id
      then slots[e.id.index := FREE_ENTITY]
      else slots
  }

  /** The slots after MapCreate: every id becomes the invalid one, every other
      field is kept. */
  function ResetSlots(slots: seq<Entity>): (r: seq<Entity>)
    ensures |r| == |slots|
  {
    seq(|slots|, i requires 0 <= i < |slots| => slots[i].(id := ENTITY_ID_INVALID))
  }

  /** At most one owner per slot: every slot holds either the invalid id or
      the id naming that very slot with generation 1. */
  predicate SlotsOwned(slots: seq<Entity>) {
    |slots| == UNIT_CAPACITY &&
    forall i :: 0 <= i < |slots| ==> slots[i].id == ENTITY_ID_INVALID || slots[i].id == EntityId(i, 1)
  }

  /////////////////////////////////////////////////////////////////////////////
  // Properties of the store

  /** Creation takes the lowest free slot, writes the id {slot, 1} there and
      nothing else; the new handle resolves to that slot. */
  lemma CreateTakesFirstFree(slots: seq<Entity>, i: nat)
    requires |slots| == UNIT_CAPACITY && FirstFreeSlot(slots) == Some(i)
    ensures AfterCreate(slots)[i] == slots[i].(id := EntityId(i, 1))
    ensures forall j :: 0 <= j < |slots| && j != i ==> AfterCreate(slots)[j] == slots[j]
    ensures Lookup(AfterCreate(slots), EntityId(i, 1)) == Some(i)
  {
  }

  /** On a full store creation changes nothing. */
  lemma CreateOnFullStore(slots: seq<Entity>)
    requires |slots| == UNIT_CAPACITY
    requires forall j :: 0 <= j < |slots| ==> slots[j].id != ENTITY_ID_INVALID
    ensures FirstFreeSlot(slots) == None && AfterCreate(slots) == slots
  {
  }

  /** A handle resolves to at most its own slot, and the invalid id never
      resolves. */
  lemma LookupResolvesToOwnSlot(slots: seq<Entity>, id: EntityId)
    requires id == ENTITY_ID_INVALID || 0 <= id.index < |slots|
    ensures Lookup(slots, id).Some? <==> id != ENTITY_ID_INVALID && slots[id.index].id == id
    ensures Lookup(slots, id).Some? ==> Lookup(slots, id).value == id.index
  {
  }

  /** Destroying a live entity frees exactly its slot, after which its handle
      no longer resolves, and a second destroy changes nothing. */
  lemma DestroyLive(slots: seq<Entity>, e: Entity, k: nat)
    requires |slots| == UNIT_CAPACITY && InRange(e.id)
    requires Lookup(slots, e.id) == Some(k)
    ensures AfterDestroy(slots, Some(e))[k] == FREE_ENTITY
    ensures forall j :: 0 <= j < |slots| && j != k ==> AfterDestroy(slots, Some(e))[j] == slots[j]
    ensures Lookup(AfterDestroy(slots, Some(e)), e.id) == None
    ensures AfterDestroy(AfterDestroy(slots, Some(e)), Some(e)) == AfterDestroy(slots, Some(e))
  {
  }

  /** A null pointer, the invalid id, or a handle that does not resolve is
      ignored by destroy. */
  lemma DestroyIgnored(slots: seq<Entity>, entity: Option<Entity>)
    requires |slots| == UNIT_CAPACITY && (entity.Some? ==> InRange(entity.value.id))
    requires entity.Some? ==> Lookup(slots, entity.value.id) == None
    ensures AfterDestroy(slots, entity) == slots
  {
  }

  /** Creation and destruction keep every slot owned by at most its own id. */
  lemma {:induction false} OwnershipKept(slots: seq<Entity>, entity: Option<Entity>)
    requires |slots| == UNIT_CAPACITY && (entity.Some? ==> InRange(entity.value.id))
    requires SlotsOwned(slots)
    ensures SlotsOwned(AfterCreate(slots))
    ensures SlotsOwned(AfterDestroy(slots, entity))
  {
    match FirstFreeSlot(slots)
    case None =>
    case Some(i) => CreateTakesFirstFree(slots, i);
  }

  /** In an owned store a resolving handle is the id {slot, 1}, and two live
      slots never carry the same id. */
  lemma OwnedStoreHandles(slots: seq<Entity>, id: EntityId, i: nat, j: nat)
    requires SlotsOwned(slots) && (id == ENTITY_ID_INVALID || 0 <= id.index < |slots|)
    requires i < |slots| && j < |slots| && i != j
    ensures Lookup(slots, id).Some? ==> id == EntityId(Lookup(slots, id).value, 1)
    ensures slots[i].id != ENTITY_ID_INVALID ==> slots[i].id != slots[j].id
  {
  }

  /** Stale handles: after its entity is destroyed a handle no longer
      resolves; but since creation always writes generation 1, when the freed
      slot is the next one handed out the old handle resolves again, now to
      the new entity. */
  lemma {:induction false} StaleHandleRevived(slots: seq<Entity>, e: Entity, k: nat)
    requires |slots| == UNIT_CAPACITY && InRange(e.id)
    requires Lookup(slots, e.id) == Some(k) && e.id.generation == 1
    requires forall j :: 0 <= j < k ==> slots[j].id != ENTITY_ID_INVALID
    ensures Lookup(AfterDestroy(slots, Some(e)), e.id) == None
    ensures Lookup(AfterCreate(AfterDestroy(slots, Some(e))), e.id) == Some(k)
  {
    DestroyLive(slots, e, k);
    var freed := AfterDestroy(slots, Some(e));
    assert freed[k].id == ENTITY_ID_INVALID;
    assert forall j :: 0 <= j < k ==> freed[j] == slots[j];
    assert FirstFreeSlot(freed) == Some(k);
    CreateTakesFirstFree(freed, k);
  }

  /////////////////////////////////////////////////////////////////////////////
  // Map construction as values

  const TILE_WIDTH: i32 := 32
  const TILE_HEIGHT: i32 := 16

  /** The blocker outline MapCreate gives every blocker tile. */
  const BLOCKER_OUTLINE: Polygon :=
    PolygonCollider([Vec2(-16.0, -9.0), Vec2(0.0, -16.0), Vec2(16.0, -9.0),
                     Vec2(16.0, 7.0), Vec2(0.0, 15.0), Vec2(-16.0, 7.0)])

  /** The world position of tile (x, y) with the tile size MapCreate sets. */
  function TileCentre(x: int, y: int): Vec2 {
    TileToWorld(TILE_WIDTH / 2, TILE_HEIGHT / 2, Vec2(x as real, y as real))
  }

  /** The ground entity of tile (x, y). */
  function GroundTile(x: int, y: int, sprite: Option<nat>): Entity {
    ZERO_ENTITY.(pos := TileCentre(x, y), sprite1 := ZERO_SPRITE.(active := true, sprite := sprite))
  }

  /** The blocker entity of tile (x, y). */
  function BlockerTile(x: int, y: int, sprite: Option<nat>): Entity {
    ZERO_ENTITY.(pos := TileCentre(x, y), blocker := Blocker(true, BLOCKER_OUTLINE),
                 sprite1 := ZERO_SPRITE.(active := true, sprite := sprite))
  }

  /** The ground entities of the first `x` tiles of row `y`. */
  function GroundRow(y: int, x: nat, sprite: Option<nat>): (r: seq<Entity>)
    ensures |r| == x
  {
    seq(x, i requires 0 <= i < x => GroundTile(i, y, sprite))
  }

  /** The ground entities of the first `rows` rows of a map `width` tiles wide. */
  function GroundTiles(width: nat, rows: nat, sprite: Option<nat>): (r: seq<Entity>)
    ensures |r| == rows * width
  {
    if rows == 0 then [] else GroundTiles(width, rows - 1, sprite) + GroundRow(rows - 1, width, sprite)
  }

  /** The ground list is row-major: tile (x, y) sits at index y*width + x. */
  lemma {:induction false} GroundTileAt(width: nat, rows: nat, sprite: Option<nat>, x: nat, y: nat)
    requires x < width && y < rows
    ensures y * width + x < |GroundTiles(width, rows, sprite)|
    ensures GroundTiles(width, rows, sprite)[y * width + x] == GroundTile(x, y, sprite)
    decreases rows
  {
    var prev := GroundTiles(width, rows - 1, sprite);
    if y < rows - 1 {
      GroundTileAt(width, rows - 1, sprite, x, y);
    } else {
      assert |prev| == y * width;
    }
  }

  /** The number of blocker tiles ('1') in a piece of map data. */
  function Ones(data: seq<char>): nat {
    if data == [] then 0
    else Ones(data[.. |data| - 1]) + (if data[|data| - 1] == '1' then 1 else 0)
  }

  /** Counting '1's is additive over concatenation. */
  lemma {:induction false} OnesAppend(a: seq<char>, b: seq<char>)
    ensures Ones(a + b) == Ones(a) + Ones(b)
    decreases |b|
  {
    if b == [] {
      assert a + b == a;
    } else {
      var c := a + b;
      assert c[.. |c| - 1] == a + b[.. |b| - 1];
      OnesAppend(a, b[.. |b| - 1]);
    }
  }

  /** The blocker entities of the first `x` tiles of row `y`, whose map data
      starts at offset `start` (characters past the end of the data count as
      no blocker). */
  function BlockerRow(data: seq<char>, start: nat, y: nat, x: nat, sprite: Option<nat>): seq<Entity> {
    if x == 0 then []
    else BlockerRow(data, start, y, x - 1, sprite)
         + (if start + x - 1 < |data| && data[start + x - 1] == '1' then [BlockerTile(x - 1, y, sprite)] else [])
  }

  /** The blocker entities of the first `rows` rows. */
  function BlockerTiles(data: seq<char>, width: nat, rows: nat, sprite: Option<nat>): seq<Entity> {
    if rows == 0 then []
    else BlockerTiles(data, width, rows - 1, sprite) + BlockerRow(data, RowStart(rows - 1, width), rows - 1, width, sprite)
  }

  /** Row `y` of a map `rows` rows high, starting at offset `start`: it ends
      within the map data, its blockers are appended to those of the rows
      before it, and a list of `before` entities with room for every '1' of
      the map still has room for this row's blockers after the rows before it. */
  lemma NextBlockerRow(data: seq<char>, width: nat, rows: nat, y: nat, start: nat, total: nat,
                       sprite: Option<nat>, before: nat)
    requires y < rows && start == RowStart(y, width) && total == RowStart(rows, width) && total <= |data|
    requires before + Ones(data[.. total]) <= TILE_CAPACITY
    ensures start + width <= |data| && start + width == RowStart(y + 1, width)
    ensures BlockerTiles(data, width, y + 1, sprite)
         == BlockerTiles(data, width, y, sprite) + BlockerRow(data, start, y, width, sprite)
    ensures before + |BlockerTiles(data, width, y, sprite)| + Ones(data[start .. start + width]) <= TILE_CAPACITY
  {
    RowStartMonotone(width, y + 1, rows);
    BlockerTilesCountTo(data, width, y, sprite);
    OnesSplit(data, start, start + width);
    OnesSplit(data, start + width, total);
  }

  /** The blockers of the first `rows` rows are one per '1' before the start
      of row `rows`. */
  lemma {:induction false} BlockerTilesCountTo(data: seq<char>, width: nat, rows: nat, sprite: Option<nat>)
    requires RowStart(rows, width) <= |data|
    ensures |BlockerTiles(data, width, rows, sprite)| == Ones(data[.. RowStart(rows, width)])
    decreases rows
  {
    if rows > 0 {
      var start := RowStart(rows - 1, width);
      assert RowStart(rows, width) == start + width;
      assert data[.. RowStart(rows, width)] == data[.. start + width];
      BlockerTilesCountTo(data, width, rows - 1, sprite);
      BlockerRowCount(data, start, rows - 1, width, sprite);
      OnesSplit(data, start, start + width);
      assert |BlockerTiles(data, width, rows, sprite)|
          == |BlockerTiles(data, width, rows - 1, sprite)| + |BlockerRow(data, start, rows - 1, width, sprite)|;
    }
  }

  /** What either part holds, their concatenation holds. */
  lemma InAppend(e: Entity, a: seq<Entity>, b: seq<Entity>)
    ensures (e in a || e in b) ==> e in a + b
  {
  }

  lemma AppendAssociative(a: seq<Entity>, b: seq<Entity>, c: seq<Entity>)
    ensures a + (b + c) == (a + b) + c
  {
  }

  /** Row `y` up to column `x` holds one blocker per '1' in that stretch. */
  lemma {:induction false} BlockerRowCount(data: seq<char>, start: nat, y: nat, x: nat, sprite: Option<nat>)
    requires start + x <= |data|
    ensures |BlockerRow(data, start, y, x, sprite)| == Ones(data[start .. start + x])
    decreases x
  {
    if x > 0 {
      BlockerRowCount(data, start, y, x - 1, sprite);
      assert data[start .. start + x][.. x - 1] == data[start .. start + x - 1];
    }
  }

  /** MapCreate adds one blocker for each '1' among the first rows*width
      characters of the map data. */
  lemma BlockerTilesCount(data: seq<char>, width: nat, rows: nat, sprite: Option<nat>)
    requires rows * width <= |data|
    ensures |BlockerTiles(data, width, rows, sprite)| == Ones(data[.. rows * width])
  {
    RowStartIsProduct(rows, width);
    BlockerTilesCountTo(data, width, rows, sprite);
  }

  /** Before the blocker of a '1' at column x of a row is added, fewer
      blockers of that row have been added than the row has '1's. */
  lemma RowRoom(data: seq<char>, start: nat, y: nat, x: nat, cols: nat, sprite: Option<nat>)
    requires x < cols && start + cols <= |data| && data[start + x] == '1'
    ensures |BlockerRow(data, start, y, x, sprite)| < Ones(data[start .. start + cols])
  {
    BlockerRowCount(data, start, y, x, sprite);
    var row := data[start .. start + cols];
    assert row == data[start .. start + x] + [data[start + x]] + row[x + 1 ..];
    OnesAppend(data[start .. start + x] + [data[start + x]], row[x + 1 ..]);
    OnesAppend(data[start .. start + x], [data[start + x]]);
    assert [data[start + x]][.. 0] == [];
  }

  /** Counting '1's in a prefix is additive over adjacent stretches. */
  lemma OnesSplit(data: seq<char>, i: nat, j: nat)
    requires i <= j <= |data|
    ensures Ones(data[.. j]) == Ones(data[.. i]) + Ones(data[i .. j])
  {
    assert data[.. j] == data[.. i] + data[i .. j];
    OnesAppend(data[.. i], data[i .. j]);
  }

  /** Every entity of a blocker row is an active blocker with the fixed
      outline and an active sprite. */
  lemma {:induction false} BlockerRowShape(data: seq<char>, start: nat, y: nat, x: nat, sprite: Option<nat>)
    ensures forall b :: b in BlockerRow(data, start, y, x, sprite) ==>
      b.blocker == Blocker(true, BLOCKER_OUTLINE) && b.sprite1.active && b.sprite1.sprite == sprite
    decreases x
  {
    if x > 0 {
      BlockerRowShape(data, start, y, x - 1, sprite);
    }
  }

  /** Every blocker entity MapCreate adds is an active blocker with the fixed
      six-vertex outline and an active sprite. */
  lemma {:induction false} BlockerTilesShape(data: seq<char>, width: nat, rows: nat, sprite: Option<nat>)
    ensures forall b :: b in BlockerTiles(data, width, rows, sprite) ==>
      b.blocker == Blocker(true, BLOCKER_OUTLINE) && |b.blocker.collider.vertices| == 6 &&
      b.sprite1.active && b.sprite1.sprite == sprite
    decreases rows
  {
    if rows > 0 {
      BlockerTilesShape(data, width, rows - 1, sprite);
      BlockerRowShape(data, RowStart(rows - 1, width), rows - 1, width, sprite);
    }
  }

  /** A '1' at column i of a row gives that tile's blocker entity. */
  lemma {:induction false} BlockerRowHasOne(data: seq<char>, start: nat, y: nat, x: nat, i: nat, sprite: Option<nat>)
    requires i < x && start + i < |data| && data[start + i] == '1'
    ensures BlockerTile(i, y, sprite) in BlockerRow(data, start, y, x, sprite)
    decreases x
  {
    if i < x - 1 {
      BlockerRowHasOne(data, start, y, x - 1, i, sprite);
    }
  }

  /** A '1' at tile (x, y), that is at index y*width + x of the map data,
      gives a blocker entity at that tile. */
  lemma BlockerTileAt(data: seq<char>, width: nat, rows: nat, x: nat, y: nat, sprite: Option<nat>)
    requires x < width && y < rows
    requires y * width + x < |data| && data[y * width + x] == '1'
    ensures BlockerTile(x, y, sprite) in BlockerTiles(data, width, rows, sprite)
  {
    RowStartIsProduct(y, width);
    BlockerTileIn(data, width, rows, x, y, sprite);
  }

  lemma {:induction false} BlockerTileIn(data: seq<char>, width: nat, rows: nat, x: nat, y: nat, sprite: Option<nat>)
    requires x < width && y < rows
    requires RowStart(y, width) + x < |data| && data[RowStart(y, width) + x] == '1'
    ensures BlockerTile(x, y, sprite) in BlockerTiles(data, width, rows, sprite)
    decreases rows
  {
    var before := BlockerTiles(data, width, rows - 1, sprite);
    var row := BlockerRow(data, RowStart(rows - 1, width), rows - 1, width, sprite);
    assert BlockerTiles(data, width, rows, sprite) == before + row;
    if y < rows - 1 {
      BlockerTileIn(data, width, rows - 1, x, y, sprite);
      InAppend(BlockerTile(x, y, sprite), before, row);
    } else {
      BlockerRowHasOne(data, RowStart(y, width), y, width, x, sprite);
      InAppend(BlockerTile(x, y, sprite), before, row);
    }
  }

  /** The slot reset of MapCreate leaves an owned store with every slot free,
      so the next creation takes slot 0. */
  lemma ResetFreesAll(slots: seq<Entity>)
    requires |slots| == UNIT_CAPACITY
    ensures SlotsOwned(ResetSlots(slots))
    ensures forall j :: 0 <= j < |slots| ==> Lookup(ResetSlots(slots), EntityId(j, 1)) == None
    ensures FirstFreeSlot(ResetSlots(slots)) == Some(0)
  {
    assert ResetSlots(slots)[0].id == ENTITY_ID_INVALID;
  }

  /////////////////////////////////////////////////////////////////////////////
  // The map

  class Map {
    var mapWidth: i32
    var mapHeight: i32
    var tileWidth: i32
    var tileHeight: i32
    var tileHalfWidth: i32
    var tileHalfHeight: i32
    /** FixedList<Entity, 1024> */
    var groundTileEntities: seq<Entity>
    /** FixedList<Entity, 1024> */
    var blockerTileEntities: seq<Entity>
    /** FixedList<Entity, 2048>, indexed by slot */
    const unitEntities: array<Entity>

    /** The fixed capacities of the three lists. */
    predicate Valid()
      reads this
    {
      unitEntities.Length == UNIT_CAPACITY &&
      |groundTileEntities| <= TILE_CAPACITY && |blockerTileEntities| <= TILE_CAPACITY
    }

    /** A zero-initialised map. */
    constructor ()
      ensures Valid()
      ensures mapWidth == 0 && mapHeight == 0 && tileWidth == 0 && tileHeight == 0
      ensures tileHalfWidth == 0 && tileHalfHeight == 0
      ensures groundTileEntities == [] && blockerTileEntities == []
      ensures forall j :: 0 <= j < unitEntities.Length ==> unitEntities[j] == ZERO_ENTITY
      ensures fresh(unitEntities)
    {
      mapWidth, mapHeight, tileWidth, tileHeight := 0, 0, 0, 0;
      tileHalfWidth, tileHalfHeight := 0, 0;
      groundTileEntities, blockerTileEntities := [], [];
      unitEntities := new Entity[UNIT_CAPACITY](_ => ZERO_ENTITY);
    }

    /** LeEngine::MapCreateEntity: scans the slots in order and gives the
        first free one the id {slot, 1}; on a full store (the engine's
        assertion) the result is None and nothing changes. */
    method MapCreateEntity() returns (r: Option<nat>)
      requires Valid()
      modifies unitEntities
      ensures r == FirstFreeSlot(old(unitEntities[..]))
      ensures unitEntities[..] == AfterCreate(old(unitEntities[..]))
      ensures r.Some? ==> MapGetEntity(EntityId(r.value, 1)) == r
    {
      ghost var before := unitEntities[..];
      var entityCapacity := unitEntities.Length;
      for entityIndex := 0 to entityCapacity
        invariant forall j :: 0 <= j < entityIndex ==> unitEntities[j].id != ENTITY_ID_INVALID
        invariant unitEntities[..] == before
      {
        if unitEntities[entityIndex].id.Equals(ENTITY_ID_INVALID) {
          assert FirstFreeSlot(before) == Some(entityIndex);
          unitEntities[entityIndex] := unitEntities[entityIndex].(id := unitEntities[entityIndex].id.(generation := 1));
          unitEntities[entityIndex] := unitEntities[entityIndex].(id := unitEntities[entityIndex].id.(index := entityIndex));
          CreateTakesFirstFree(before, entityIndex);
          return Some(entityIndex);
        }
      }
      return None;
    }

    /** LeEngine::MapGetEntity: the slot of a handle whose id matches the id
        stored in slot `id.index`; None for the invalid id or a mismatch. */
    function MapGetEntity(id: EntityId): (r: Option<nat>)
      requires Valid() && InRange(id)
      reads this, unitEntities
      ensures r.Some? <==> id != ENTITY_ID_INVALID && unitEntities[id.index].id == id
      ensures r.Some? ==> r.value == id.index
      ensures r == Lookup(unitEntities[..], id)
    {
      if id.NotEquals(ENTITY_ID_INVALID) && unitEntities[id.index].id.Equals(id) then Some(id.index as nat)
      else None
    }

    /** LeEngine::MapDestroyEntity, given the entity the pointer refers to
        (None for null): a live entity's slot is zeroed and gets the invalid
        id; anything else is ignored. */
    method MapDestroyEntity(entity: Option<Entity>)
      requires Valid() && (entity.Some? ==> InRange(entity.value.id))
      modifies unitEntities
      ensures unitEntities[..] == AfterDestroy(old(unitEntities[..]), entity)
      ensures entity.Some? ==> MapGetEntity(entity.value.id) == None
    {
      if entity.Some? {
        var id := entity.value.id;
        if id.NotEquals(ENTITY_ID_INVALID) {
          var placed := id.index;
          if id.Equals(unitEntities[placed].id) {
            unitEntities[placed] := ZERO_ENTITY;
            unitEntities[placed] := unitEntities[placed].(id := ENTITY_ID_INVALID);
          }
        }
      }
    }

    /** The tile size MapCreate stores. */
    predicate HasTileSize()
      reads this
    {
      tileWidth == TILE_WIDTH && tileHeight == TILE_HEIGHT &&
      tileHalfWidth == TILE_WIDTH / 2 && tileHalfHeight == TILE_HEIGHT / 2
    }

    /** LeEngine::MapCreate: records the map and tile sizes, appends one ground
        entity per tile in row-major order, one blocker entity per '1' in the
        map data, and marks every unit slot free. The sprites are the
        registered sprites with the ids of "tile_test" and "tile_blocker". A
        negative width or height gives no rows or columns, as in the engine's
        loops. */
    method MapCreate(mapData: seq<char>, width: i32, height: i32, registered: seq<SpriteAsset>,
                     tileTestId: AssetId, tileBlockerId: AssetId)
      requires Valid()
      requires Columns(width) * Columns(height) <= |mapData|
      requires |groundTileEntities| + Columns(width) * Columns(height) <= TILE_CAPACITY
      requires |blockerTileEntities| + Ones(mapData[.. Columns(height) * Columns(width)]) <= TILE_CAPACITY
      modifies this, unitEntities
      ensures Valid() && HasTileSize() && mapWidth == width && mapHeight == height
      ensures groundTileEntities == old(groundTileEntities)
        + GroundTiles(Columns(width), Columns(height), FindSprite(registered, tileTestId))
      ensures blockerTileEntities == old(blockerTileEntities)
        + BlockerTiles(mapData, Columns(width), Columns(height), FindSprite(registered, tileBlockerId))
      ensures unitEntities[..] == ResetSlots(old(unitEntities[..]))
      ensures SlotsOwned(unitEntities[..])
    {
      mapWidth := width;
      mapHeight := height;
      tileWidth := 32;
      tileHeight := 16;
      tileHalfWidth := tileWidth / 2;
      tileHalfHeight := tileHeight / 2;
      AddGroundTiles(registered, tileTestId);
      RowStartIsProduct(Columns(height), Columns(width));
      AddBlockerTiles(mapData, registered, tileBlockerId);
      ResetUnitSlots();
    }

    /** The first loop nest of MapCreate: one ground entity per tile, row by
        row, each at its tile's world position with the "tile_test" sprite. */
    method AddGroundTiles(registered: seq<SpriteAsset>, tileTestId: AssetId)
      requires Valid() && HasTileSize()
      requires |groundTileEntities| + Columns(mapWidth) * Columns(mapHeight) <= TILE_CAPACITY
      modifies this`groundTileEntities
      ensures Valid()
      ensures groundTileEntities == old(groundTileEntities)
        + GroundTiles(Columns(mapWidth), Columns(mapHeight), FindSprite(registered, tileTestId))
    {
      ghost var cols, rows := Columns(mapWidth), Columns(mapHeight);
      ghost var testSprite := FindSprite(registered, tileTestId);
      var y := 0;
      while y < mapHeight
        modifies this`groundTileEntities
        invariant 0 <= y <= rows
        invariant groundTileEntities == old(groundTileEntities) + GroundTiles(cols, y, testSprite)
      {
        var x := 0;
        while x < mapWidth
          modifies this`groundTileEntities
          invariant 0 <= x <= cols
          invariant groundTileEntities == old(groundTileEntities) + GroundTiles(cols, y, testSprite) + GroundRow(y, x, testSprite)
        {
          RowMajorBelow(cols, rows, x, y);
          var entity := ZERO_ENTITY;
          entity := entity.(pos := TileToWorld(tileHalfWidth, tileHalfHeight, Vec2(x as real, y as real)));
          var sprite := GetSpriteAsset(registered, tileTestId);
          entity := entity.(sprite1 := entity.sprite1.(active := true, sprite := sprite));
          assert entity == GroundTile(x, y, testSprite);
          groundTileEntities := groundTileEntities + [entity];
          x := x + 1;
        }
        y := y + 1;
      }
    }

    /** The second loop nest of MapCreate: one blocker entity, with the fixed
        outline and the "tile_blocker" sprite, for each '1' in the map data. */
    method AddBlockerTiles(mapData: seq<char>, registered: seq<SpriteAsset>, tileBlockerId: AssetId)
      requires Valid() && HasTileSize()
      requires RowStart(Columns(mapHeight), Columns(mapWidth)) <= |mapData|
      requires |blockerTileEntities| + Ones(mapData[.. RowStart(Columns(mapHeight), Columns(mapWidth))]) <= TILE_CAPACITY
      modifies this`blockerTileEntities
      ensures Valid()
      ensures blockerTileEntities == old(blockerTileEntities)
        + BlockerTiles(mapData, Columns(mapWidth), Columns(mapHeight), FindSprite(registered, tileBlockerId))
    {
      ghost var cols, rows := Columns(mapWidth), Columns(mapHeight);
      ghost var blockerSprite := FindSprite(registered, tileBlockerId);
      ghost var total := RowStart(rows, cols);
      ghost var before := |blockerTileEntities|;
      ghost var start: nat := 0;
      var y := 0;
      while y < mapHeight
        modifies this`blockerTileEntities
        invariant 0 <= y <= rows
        invariant start == RowStart(y, cols) && Valid()
        invariant blockerTileEntities == old(blockerTileEntities) + BlockerTiles(mapData, cols, y, blockerSprite)
      {
        NextBlockerRow(mapData, cols, rows, y, start, total, blockerSprite, before);
        AddBlockerRow(mapData, y, start, cols, registered, tileBlockerId);
        AppendAssociative(old(blockerTileEntities), BlockerTiles(mapData, cols, y, blockerSprite),
                          BlockerRow(mapData, start, y, cols, blockerSprite));
        start := start + cols;
        y := y + 1;
      }
    }

    /** The inner loop of the second loop nest of MapCreate: the blockers of
        row `y`, whose map data starts at offset `start`. */
    method AddBlockerRow(mapData: seq<char>, y: int, ghost start: nat, ghost cols: nat,
                         registered: seq<SpriteAsset>, tileBlockerId: AssetId)
      requires Valid() && HasTileSize() && 0 <= y && cols == Columns(mapWidth)
      requires start == RowStart(y, cols) && start + cols <= |mapData|
      requires |blockerTileEntities| + Ones(mapData[start .. start + cols]) <= TILE_CAPACITY
      modifies this`blockerTileEntities
      ensures Valid()
      ensures blockerTileEntities == old(blockerTileEntities)
        + BlockerRow(mapData, start, y, cols, FindSprite(registered, tileBlockerId))
    {
      ghost var blockerSprite := FindSprite(registered, tileBlockerId);
      RowStartIsProduct(y, cols);
      var x := 0;
      while x < mapWidth
        modifies this`blockerTileEntities
        invariant 0 <= x <= cols
        invariant blockerTileEntities == old(blockerTileEntities) + BlockerRow(mapData, start, y, x, blockerSprite)
      {
        var index := y * mapWidth + x;
        assert index == start + x;
        var tileType := mapData[index];
        if tileType == '1' {
          RowRoom(mapData, start, y, x, cols, blockerSprite);
          var entity := ZERO_ENTITY;
          entity := entity.(pos := TileToWorld(tileHalfWidth, tileHalfHeight, Vec2(x as real, y as real)));
          entity := entity.(blocker := Blocker(true, BLOCKER_OUTLINE));
          var sprite := GetSpriteAsset(registered, tileBlockerId);
          entity := entity.(sprite1 := entity.sprite1.(active := true, sprite := sprite));
          assert entity == BlockerTile(x, y, blockerSprite);
          AppendAssociative(old(blockerTileEntities), BlockerRow(mapData, start, y, x, blockerSprite), [entity]);
          blockerTileEntities := blockerTileEntities + [entity];
        }
        x := x + 1;
      }
      BlockerRowCount(mapData, start, y, cols, blockerSprite);
    }

    /** The last loop of MapCreate: every unit slot gets the invalid id and
        keeps its other fields, which leaves the store owned. */
    method ResetUnitSlots()
      requires Valid()
      modifies unitEntities
      ensures unitEntities[..] == ResetSlots(old(unitEntities[..]))
      ensures SlotsOwned(unitEntities[..])
    {
      var entityCapacity := unitEntities.Length;
      for entityIndex := 0 to entityCapacity
        invariant forall j :: 0 <= j < entityIndex ==> unitEntities[j] == old(unitEntities[j]).(id := ENTITY_ID_INVALID)
        invariant forall j :: entityIndex <= j < entityCapacity ==> unitEntities[j] == old(unitEntities[j])
      {
        unitEntities[entityIndex] := unitEntities[entityIndex].(id := ENTITY_ID_INVALID);
      }
      ResetFreesAll(old(unitEntities[..]));
    }
  }


  /** A loop bound as a count: a negative bound runs no iterations. */
  function Columns(n: i32): nat {
    if n < 0 then 0 else n
  }

  /** Tile (x, y) of a map `cols` by `rows` lies before index rows*cols. */
  lemma RowMajorBelow(cols: nat, rows: nat, x: nat, y: nat)
    requires x < cols && y < rows
    ensures y * cols + x < rows * cols
  {
    assert (y + 1) * cols <= rows * cols;
  }
}
