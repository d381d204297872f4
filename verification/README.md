# atto engine core in Dafny

This project models the deterministic core of the atto engine, a small C++
real-time-strategy engine. It covers five parts:

- **The entity store and map construction.** This is a fixed array of 2048 unit
  slots addressed by `{index, generation}` handles. `MapCreateEntity`,
  `MapGetEntity` and `MapDestroyEntity` operate on it. `MapCreate` fills the
  ground and blocker tile lists from a tile string through the isometric
  projection `MapTilePosToWorldPos`. The small entity helpers that move a local
  box, circle or polygon to the entity's position belong here too.
- **Geometry.** This covers `BoxBounds` (intersection, containment, translation
  and the minimum-overlap collision manifold), `Circle::Intersects`, the 2D
  determinant and the point-in-triangle test. It also covers
  `PolygonCollider::Translate` and the ear-clipping loop of
  `Geometry::Triangulate`.
- **PackedAssetFile.** This is an append-only byte buffer with a read cursor.
  - `Put` appends the raw bytes of a value.
  - `Get` checks the bound, copies and advances.
  - Lists are written as a count followed by their elements.
  - `Serialize` reads or writes depending on `isLoading`.
  - `SerializeAsset` visits the fields of textures, audio clips and fonts.
- **TileSheetGenerator.** It stores grey tiles, optionally flipped vertically.
  It packs them into a square grid of cells as large as the largest tile,
  gives each tile the texture coordinates of its place and of its cell, and
  expands every grey byte into an RGBA pixel of the atlas.
- **Frame input.** Each key and mouse button has a "down now" flag and a
  "before" flag. The GLFW key and mouse-button callbacks update the two flags.
  Four predicates tell a fresh press or release from a held state.

Coordinates are `real`. Buffers are `seq<byte>`, `u32`/`i32` are subset types
of `int`, and the fixed lists of the engine are sequences with their capacity
as a bound. Code that updates state in place stays imperative:
- `Map`, `PackedAssetFile`, `TileSheetGenerator` and `FrameInput` are classes.
- `unitEntities`, the atlas pixels and the input flags are arrays.

Each method is proved against a specification function, and the properties of
the engine are lemmas about those functions.

`MapCreateEntity` (atto/src/AttoAsset.cpp:756) always writes generation 1, so
a handle held past its entity's destruction resolves again once a later create
reuses the slot; `MapStore.StaleHandleRevived` states this.

## Model

| member | source | states |
|---|---|---|
| AttoMath.Lerp | atto/src/AttoMath.h:7-9 | at t = 0 the result is a, at t = 1 it is b |
| AttoMath.LerpBetween | atto/src/AttoMath.h:7-9 | for t in [0, 1] the interpolant lies between a and b |
| AttoMath.ApproxEqual | atto/src/AttoMath.h:20-22 | holds exactly when b lies in the open interval (a - eps, a + eps), i.e. abs(a - b) < eps |
| AttoMath.ApproxEqualSymmetric | atto/src/AttoMath.h:20-22 | the comparison is symmetric in a and b |
| AttoMath.ApproxEqualReflexive | atto/src/AttoMath.h:20-22 | every value is approximately equal to itself with the default epsilon 0.0001, and with a given epsilon exactly when it is positive |
| AttoMath.ClampLength | atto/src/AttoMath.h:11-18 | a vector whose squared length is at most maxLength squared comes back unchanged; longer vectors take the normalising branch (None) |
| AttoMath.CircleIntersectsSymmetric | atto/src/AttoMath.cpp:5-9 | the circle test is symmetric |
| AttoMath.TouchingCirclesDoNotIntersect | atto/src/AttoMath.cpp:5-9 | the test is strict: circles whose centres are exactly one radius sum apart do not intersect |
| AttoMath.CircleIntersectsIffCommonPoint | atto/src/AttoMath.cpp:5-9 | for positive radii the squared-distance test holds exactly when some point lies strictly inside both circles |
| AttoMath.BoxBounds.Translate | atto/src/AttoMath.cpp:26-29 | the box keeps its size (max - min), and p is in the old box exactly when p + d is in the new one |
| AttoMath.BoxIntersectsSymmetric | atto/src/AttoMath.cpp:54-57 | box intersection is symmetric |
| AttoMath.BoxSharedEdgeIntersects | atto/src/AttoMath.cpp:54-57 | the test is inclusive: boxes that only share an edge intersect |
| AttoMath.BoxIntersectsIffCommonPoint | atto/src/AttoMath.cpp:54-57 | for proper boxes the test holds exactly when some point is contained in both |
| AttoMath.BoxContainsCorners | atto/src/AttoMath.cpp:91-94 | containment is inclusive: a box with min <= max contains both corners |
| AttoMath.BoxBounds.Collision | atto/src/AttoMath.cpp:59-89 | true exactly when the boxes intersect; otherwise the manifold is untouched; on a hit the penetration is the smaller axis overlap (y on a tie), non-negative for proper boxes, the normal is an axis unit vector whose sign is decided by the max edges, and the contact points are untouched |
| AttoMath.BoxCollisionSeparatesOnX | atto/src/AttoMath.cpp:59-73 | when x is the resolution axis, moving the other box by normal times penetration leaves the two boxes touching on x |
| AttoMath.BoxCollisionSeparatesOnY | atto/src/AttoMath.cpp:74-83 | the same on the y axis, which wins ties |
| AttoMath.DeterminantAntisymmetric | atto/src/AttoMath.cpp:130-133 | the 2D determinant is antisymmetric and zero on equal vectors |
| AttoMath.TrianglePointNeedsClockwise | atto/src/AttoMath.cpp:135-145 | only a clockwise triangle can contain a point, and no triangle contains its own vertex under the strict test |
| AttoMath.TrianglePointRotation | atto/src/AttoMath.cpp:135-145 | the test does not depend on which vertex the triangle starts at |
| AttoMath.Translated | atto/src/AttoMath.h:54-57 | a translated polygon keeps its vertex count (at most 8, the FixedList capacity) and every vertex moves by the translation |
| AttoMath.TranslatedInverse | atto/src/AttoMath.cpp:147-152 | translating back by the opposite vector restores the polygon |
| AttoMath.TranslatePolygon | atto/src/AttoMath.cpp:147-152 | a loop over a copy of the vertices produces exactly the translated polygon, with the vertex count unchanged |
| Triangulation.FirstEarFrom | atto/src/AttoMath.cpp:201-206 | the scan finds the lowest index at or after `from` whose triple has Determinant(v[i+2]-v[i+1], v[i+1]-v[i]) < 0, and None only when there is no such index |
| Triangulation.RemoveAt | atto/src/AttoMath.cpp:219 | removing a vertex shortens the working list by exactly one |
| Triangulation.ClipStep | atto/src/AttoMath.cpp:199-221 | one pass of the loop emits the first ear's triangle and removes its middle vertex |
| Triangulation.ClipCount | atto/src/AttoMath.cpp:194-225 | on completion the count is a multiple of 3 and at most 3 * (n - 2) more than what was emitted before |
| Triangulation.ClipEmitsEars | atto/src/AttoMath.cpp:199-221 | every emitted triple (a, b, c) satisfies Determinant(c - b, b - a) < 0 |
| Triangulation.ClipEmitsInputVertices | atto/src/AttoMath.cpp:212-217 | every emitted vertex is a vertex of the working list |
| Triangulation.ClipLeavesTwo | atto/src/AttoMath.cpp:194-223 | each ear removes exactly one working vertex, so the loop ends, at the latest with two vertices left |
| Triangulation.Triangulate | atto/src/AttoMath.cpp:173-226 | fewer than 3 vertices return 0, exactly 3 are copied out and return 3, otherwise the count and output are those of the clipping loop, and 0 (not a partial count) when a triangle would overflow the capacity; the caller's polygon is a value and is not changed |
| Triangulation.TriangulateCount | atto/src/AttoMath.cpp:173-226 | for more than 3 vertices, in any sorted order, a completed run returns a multiple of 3 of at most 3 * (n - 2) vertices, all of them vertices of the polygon |
| Triangulation.NoEarBefore | atto/src/AttoMath.cpp:201-206 | an ear with no ear before it is the one the scan finds |
| Assets.AssetIdEqualsIsIdentity | atto/src/AttoAsset.h:64-75 | AssetId equality compares only the numeric id, and the id is invalid exactly when it is 0 |
| Assets.TypedAssetId.ToRawId | atto/src/AttoAsset.h:87-89 | dropping the type tag keeps the numeric value and so keeps validity |
| Assets.FindSpriteFindsFirst | atto/src/AttoAsset.cpp:947-956 | the sprite search returns the first registered sprite with the id, and nothing exactly when none has it |
| Assets.GetSpriteAsset | atto/src/AttoAsset.cpp:947-956 | the linear scan returns the index FindSprite specifies |
| Assets.ALGetFormat | atto/src/AttoAsset.cpp:1835-1857 | more than one channel is stereo and otherwise mono; 8 and 16 bits choose the 8- or 16-bit format; any other bit depth gives 0 |
| MapStore.EntityIdOperators | atto/src/AttoAsset.h:450-456 | == holds exactly when both index and generation are equal, and != is its negation |
| MapStore.EntityGetBoundingBox | atto/src/AttoAsset.cpp:692-696 | the bounding box keeps the local box's size, moved by the entity's position |
| MapStore.UnitGetCollider | atto/src/AttoAsset.cpp:648-652 | the collider keeps its radius and its centre moves by the entity's position |
| MapStore.UnitCollidersShiftTogether | atto/src/AttoAsset.cpp:648-652 | moving two units by the same offset does not change whether their colliders intersect |
| MapStore.BlockerGetCollider | atto/src/AttoAsset.cpp:851-856 | the blocker outline keeps its vertex count, and each vertex moves by the entity's position |
| MapStore.TileToWorld | atto/src/AttoAsset.cpp:790-795 | with non-zero half tile sizes the tile position can be recovered from the world position |
| MapStore.TileToWorldInjective | atto/src/AttoAsset.cpp:790-795 | distinct tiles land on distinct world positions |
| MapStore.FirstFreeSlot | atto/src/AttoAsset.cpp:752-755 | the lowest slot holding ENTITY_ID_INVALID, and None exactly when every slot is taken |
| MapStore.AfterCreate | atto/src/AttoAsset.cpp:751-766 | creating keeps the number of slots |
| MapStore.CreateTakesFirstFree | atto/src/AttoAsset.cpp:751-760 | creation writes {slot, 1} into the lowest free slot, leaves every other slot unchanged, and the new handle resolves to that slot |
| MapStore.CreateOnFullStore | atto/src/AttoAsset.cpp:763-765 | on a full store creation returns nothing and changes nothing |
| MapStore.LookupResolvesToOwnSlot | atto/src/AttoAsset.cpp:768-776 | a handle resolves exactly when it is not ENTITY_ID_INVALID and equals the id stored at its index, and then to that slot |
| MapStore.AfterDestroy | atto/src/AttoAsset.cpp:778-788 | destroying keeps the number of slots |
| MapStore.DestroyLive | atto/src/AttoAsset.cpp:778-788 | destroying a live entity zeroes its slot with the invalid id, leaves the others unchanged, stops the handle resolving, and a second destroy does nothing |
| MapStore.DestroyIgnored | atto/src/AttoAsset.cpp:779-782 | a null pointer, the invalid id or a handle that does not resolve changes nothing |
| MapStore.OwnershipKept | atto/src/AttoAsset.cpp:751-788 | create and destroy keep every slot owned by at most its own id {slot, 1} |
| MapStore.OwnedStoreHandles | atto/src/AttoAsset.cpp:768-776 | in an owned store a resolving handle is {slot, 1} and two live slots never hold the same id |
| MapStore.StaleHandleRevived | atto/src/AttoAsset.cpp:751-788 | after a destroy the old handle does not resolve, but once a create reuses the slot it resolves again, because the generation is always 1 |
| MapStore.ResetSlots | atto/src/AttoAsset.cpp:744-748 | the reset keeps the number of slots |
| MapStore.ResetFreesAll | atto/src/AttoAsset.cpp:744-748 | after the reset every slot is free, no {slot, 1} handle resolves, and the next create takes slot 0 |
| MapStore.GroundTileAt | atto/src/AttoAsset.cpp:706-717 | the ground list is row-major: tile (x, y) sits at index y * width + x, placed at its world position |
| MapStore.BlockerTilesCount | atto/src/AttoAsset.cpp:719-742 | MapCreate adds exactly one blocker per '1' among the first width * height map characters |
| MapStore.BlockerTilesShape | atto/src/AttoAsset.cpp:725-737 | every blocker added is an active blocker with the fixed six-vertex outline and an active sprite |
| MapStore.BlockerTileAt | atto/src/AttoAsset.cpp:719-742 | a '1' at index y * width + x gives the blocker entity of tile (x, y) |
| MapStore.Map.constructor | atto/src/AttoAsset.h:512-523 | a zero-initialised map with empty tile lists and all-zero unit slots |
| MapStore.Map.MapCreateEntity | atto/src/AttoAsset.cpp:751-766 | returns the first free slot (None on a full store), and the new slots are AfterCreate of the old ones; the new handle resolves to the returned slot |
| MapStore.Map.MapGetEntity | atto/src/AttoAsset.cpp:768-776 | returns slot id.index exactly when id is not invalid and equals the stored id |
| MapStore.Map.MapDestroyEntity | atto/src/AttoAsset.cpp:778-788 | the new slots are AfterDestroy of the old ones, and the destroyed handle no longer resolves |
| MapStore.Map.MapCreate | atto/src/AttoAsset.cpp:698-748 | records the map size and the 32 by 16 tile size, appends the row-major ground tiles and one blocker per '1', and frees every unit slot, leaving an owned store |
| MapStore.Map.AddGroundTiles | atto/src/AttoAsset.cpp:706-717 | the first loop nest appends exactly GroundTiles |
| MapStore.Map.AddBlockerTiles | atto/src/AttoAsset.cpp:719-742 | the second loop nest appends exactly BlockerTiles |
| MapStore.Map.AddBlockerRow | atto/src/AttoAsset.cpp:720-741 | one row of the second loop nest appends exactly that row's blockers |
| MapStore.Map.ResetUnitSlots | atto/src/AttoAsset.cpp:744-748 | the last loop gives every unit slot the invalid id and changes nothing else |
| PackedAsset.WordRoundTrip | atto/src/AttoAsset.h:243-248 | the four bytes memcpy copies out of a 32-bit value read back as that value |
| PackedAsset.I32BitsRoundTrip | atto/src/AttoAsset.h:243-248 | the bit pattern of an i32 reads back as the same i32 |
| PackedAsset.Encode | atto/src/AttoAsset.h:243-248 | a value's raw bytes are exactly sizeof(T) long |
| PackedAsset.DecodeAtEncode | atto/src/AttoAsset.h:263-269 | decoding a value's bytes, wherever they sit, gives the value back |
| PackedAsset.DecodeAllAtEncodeAll | atto/src/AttoAsset.cpp:2172-2183 | a list's raw elements take n * sizeof(T) bytes and decode back to the list |
| PackedAsset.ReadBytes | atto/src/AttoAsset.cpp:2178-2183 | GetData succeeds exactly when offset + size is within the buffer, returns those bytes and advances the offset by size |
| PackedAsset.ReadValue | atto/src/AttoAsset.h:263-269 | Get succeeds exactly when sizeof(T) bytes are left, returns a value of that type and advances by sizeof(T) |
| PackedAsset.ReadElements | atto/src/AttoAsset.h:271-285 | the elements of a list are read exactly when count * sizeof(T) bytes are left |
| PackedAsset.ReadItemConforms | atto/src/AttoAsset.h:263-285 | a variable read back has the type it was read as (a FixedList never more than its capacity) |
| PackedAsset.ReadItemEncodeItem | atto/src/AttoAsset.h:243-285 | the bytes Put wrote for one variable or list read back as that variable, consuming exactly those bytes |
| PackedAsset.ReadListEncoded | atto/src/AttoAsset.h:251-285 | a list is its count followed by its elements, whether read back as a List (i32 count) or a FixedList (u32 count) |
| PackedAsset.ReadItemsConform | atto/src/AttoAsset.h:233-285 | every variable of a run of reads has the type it was read as |
| PackedAsset.ReadItemsEncodeItems | atto/src/AttoAsset.h:233-285 | a sequence of writes reads back, wherever it sits, as the same variables and ends where the writes ended |
| PackedAsset.RoundTripFromStart | atto/src/AttoAsset.h:233-285 | reading a fresh buffer's writes back from offset 0 gives the same variables and leaves the cursor at the buffer's length |
| PackedAsset.TextureRoundTrip | atto/src/AttoAsset.cpp:2185-2192 | saving a texture and loading it into any texture copies width, height, channels, wrap mode and mipmap flag |
| PackedAsset.AudioRoundTrip | atto/src/AttoAsset.cpp:2194-2199 | saving an audio clip and loading it copies channels, sample rate, size and bit depth |
| PackedAsset.FontRoundTrip | atto/src/AttoAsset.cpp:2201-2205 | saving a font and loading it copies its size and glyph list |
| PackedAsset.GlyphsRoundTrip | atto/src/AttoAsset.cpp:2204 | the glyph list goes through the list encoding unchanged |
| PackedAsset.ReadFontGlyphs | atto/src/AttoAsset.cpp:2201-2205 | a font loaded from any bytes holds exactly the glyphs decoded from its list |
| PackedAsset.LoadStepFails | atto/src/AttoAsset.h:263-269 | a read that fails where the run has got to fails the whole run |
| PackedAsset.PackedAssetFile.constructor | atto/src/AttoAsset.h:228-230 | a new file is not loading, with an empty buffer and the cursor at 0 |
| PackedAsset.PackedAssetFile.PutData | atto/src/AttoAsset.cpp:2172-2176 | appends the bytes and does not move the cursor |
| PackedAsset.PackedAssetFile.GetData | atto/src/AttoAsset.cpp:2178-2183 | the bound check, copy and advance of ReadBytes; the buffer is unchanged |
| PackedAsset.PackedAssetFile.Put | atto/src/AttoAsset.h:243-248 | grows the buffer by exactly sizeof(T) bytes, keeps the earlier bytes and does not move the cursor |
| PackedAsset.PackedAssetFile.Get | atto/src/AttoAsset.h:263-269 | reads the value at the cursor and advances by sizeof(T), or fails the bound check |
| PackedAsset.PackedAssetFile.PutList | atto/src/AttoAsset.h:251-260 | appends the count and then the raw elements |
| PackedAsset.PackedAssetFile.GetList | atto/src/AttoAsset.h:271-285 | reads the count and then the elements, as ReadItem specifies |
| PackedAsset.PackedAssetFile.Serialize | atto/src/AttoAsset.h:233-240 | reads into the variable when loading and writes it otherwise |
| PackedAsset.PackedAssetFile.StartSerializing | atto/src/AttoAsset.h:233-240 | before the first Serialize call nothing has been read or written |
| PackedAsset.PackedAssetFile.FinishSerializing | atto/src/AttoAsset.h:233-240 | after the last call a load has read the whole run and a save has appended every variable's bytes |
| PackedAsset.PackedAssetFile.SerializeNext | atto/src/AttoAsset.h:233-240 | one more Serialize call extends the run, or fails it on a short buffer when loading |
| PackedAsset.PackedAssetFile.SerializeTexture | atto/src/AttoAsset.cpp:2185-2192 | loading reads the five visited fields in order and saving appends them |
| PackedAsset.PackedAssetFile.SerializeAudio | atto/src/AttoAsset.cpp:2194-2199 | loading reads the four visited fields in order and saving appends them |
| PackedAsset.PackedAssetFile.SerializeFont | atto/src/AttoAsset.cpp:2201-2205 | loading reads the font size and the glyph list and saving appends them |
| PackedAsset.PackedAssetFile.Reset | atto/src/AttoAsset.cpp:2207-2209 | rewinds the cursor to 0 and changes nothing else |
| PackedAsset.PackedAssetFile.Finished | atto/src/AttoAsset.cpp:2244-2246 | empties the buffer and changes nothing else |
| TileSheet.FlippedAt | atto/src/AttoRendering.cpp:142-147 | byte x of row y of the flipped tile is byte x of row height - 1 - y of the original, and the size is unchanged |
| TileSheet.FlipTwice | atto/src/AttoRendering.cpp:136-150 | flipping a tile twice gives back the original bytes |
| TileSheet.AddTileAsWritten | atto/src/AttoRendering.cpp:44-51 | the check as written compares the 32-bit wrapped product width * height with the capacity |
| TileSheet.WrappedSizeAdmitsHugeTile | atto/src/AttoRendering.cpp:48-49 | a 65536 by 65536 tile passes the wrapped check with no bytes at all |
| TileSheet.CellFitsEveryTile | atto/src/AttoRendering.cpp:58-66 | the cell size bounds every tile and is the size of some tile |
| TileSheet.Isqrt | atto/src/AttoRendering.cpp:68 | the largest r with r * r <= n |
| TileSheet.CellsPerSide | atto/src/AttoRendering.cpp:68-69 | isqrt(n) + 1 cells per side give more than n cells |
| TileSheet.Layout | atto/src/AttoRendering.cpp:74-95 | the placement loop gives every tile a position and keeps the number of tiles |
| TileSheet.RatioOrdered | atto/src/AttoRendering.cpp:80-87 | texture coordinates along one side keep the order of the pixel coordinates and stay within 0 and 1 while the pixels stay within the atlas |
| TileSheet.AxisCoordinates | atto/src/AttoRendering.cpp:80-87 | along one axis a tile's start, end and cell end give ordered fractions in [0, 1], and the tile's start and end scale back to its pixels |
| TileSheet.PlacedTileCoordinates | atto/src/AttoRendering.cpp:78-89 | a tile inside its cell inside a positive atlas gets uv0 = boundingUV0 <= uv1 <= boundingUV1 within the unit square, and uv0, uv1 times the atlas size are its pixel corners |
| TileSheet.LayoutTextureCoordinates | atto/src/AttoRendering.cpp:74-95 | the layout keeps each tile's size and bytes, and with cells of positive size its texture coordinates lie in the unit square and scale back to its pixel rectangle in the atlas |
| TileSheet.PositionInGrid | atto/src/AttoRendering.cpp:74-95 | the placement loop puts tile row * k + col at cell col of row row |
| TileSheet.LoopPositionIsGridPosition | atto/src/AttoRendering.cpp:74-95 | with cells of positive width the loop fills the k by k grid row by row, left to right |
| TileSheet.GridPositionInside | atto/src/AttoRendering.cpp:74-95 | a tile no larger than a cell in a grid cell numbered below k * k lies inside the atlas, whatever the cell size |
| TileSheet.ZeroWidthTilesLeaveAtlas | atto/src/AttoRendering.cpp:88-95 | with zero-width cells the loop starts a new row after every tile, and the third of three 0 by 1 tiles lies below the atlas |
| TileSheet.PlacedTilesInside | atto/src/AttoRendering.cpp:107-108 | with positive cell width every placed tile lies inside the atlas, so the asserts hold |
| TileSheet.PixelIndexIsProduct | atto/src/AttoRendering.cpp:72-117 | the pixel offset is (y * width + x) * 4 + c and the buffer holds width * height * 4 bytes |
| TileSheet.PixelApart | atto/src/AttoRendering.cpp:117-122 | distinct pixels of a row-major atlas have disjoint four-byte slots |
| TileSheet.UncoveredPixelIsBlank | atto/src/AttoRendering.cpp:97-98 | a pixel no tile covers stays 0 |
| TileSheet.OnlyCoverShows | atto/src/AttoRendering.cpp:99-125 | a pixel covered by exactly one tile shows that tile's byte |
| TileSheet.PlacedTilesDisjoint | atto/src/AttoRendering.cpp:74-95 | with positive cell width no two placed tiles cover the same pixel |
| TileSheet.LayoutIsDisjoint | atto/src/AttoRendering.cpp:74-95 | the layout has no overlapping tiles |
| TileSheet.AtlasShowsEveryTile | atto/src/AttoRendering.cpp:110-125 | in an atlas of non-overlapping tiles every byte r of every tile shows as (r, r, r, 255) at its position |
| TileSheet.TileByteAt | atto/src/AttoRendering.cpp:114-115 | the loop reads byte (dx, dy) of a tile at dy * width + dx, within its data |
| TileSheet.TileSheetGenerator.constructor | atto/src/AttoRendering.cpp:44-45 | a generator starts with no tiles |
| TileSheet.TileSheetGenerator.AddTile | atto/src/AttoRendering.cpp:44-55 | requires the true product width * height to be below the capacity (the assert, without wrap-around); appends one tile of that size holding the first width * height bytes, flipped when asked, and keeps the earlier tiles |
| TileSheet.TileSheetGenerator.FlipTile | atto/src/AttoRendering.cpp:136-150 | the tile keeps its size and gets the flipped bytes |
| TileSheet.TileSheetGenerator.FlipRows | atto/src/AttoRendering.cpp:142-148 | the loop nest fills the temporary buffer with the flipped bytes |
| TileSheet.TileSheetGenerator.FlipRow | atto/src/AttoRendering.cpp:143-147 | one inner loop fills row y of the buffer |
| TileSheet.TileSheetGenerator.SetPixel | atto/src/AttoRendering.cpp:119-122 | the grey byte goes to red, green and blue, and 255 to alpha |
| TileSheet.TileSheetGenerator.BlitRow | atto/src/AttoRendering.cpp:113-123 | the innermost loop draws row dy of the tile and leaves every other byte unchanged |
| TileSheet.TileSheetGenerator.BlitTile | atto/src/AttoRendering.cpp:110-124 | the drawing of one tile writes its pixels and leaves every other byte unchanged |
| TileSheet.TileSheetGenerator.GenerateTiles | atto/src/AttoRendering.cpp:57-129 | lays the tiles out (positions and texture coordinates), sizes the atlas as cell size times isqrt(n) + 1 per side with 4 bytes per pixel, succeeds exactly when every tile is inside, and then every pixel is the last covering tile's RGBA value or 0 |
| TileSheet.TileSheetGenerator.DrawTiles | atto/src/AttoRendering.cpp:97-125 | fails exactly when some tile would overrun the atlas (the asserts), otherwise draws every tile in order |
| TileSheet.TileSheetGenerator.GetTileUV | atto/src/AttoRendering.cpp:131-134 | returns exactly the uv0 and uv1 stored on the tile |
| TileSheet.TileSheetGenerator.MeasureCells | atto/src/AttoRendering.cpp:58-66 | the cell size is the largest tile width and height |
| TileSheet.TileSheetGenerator.PlaceTiles | atto/src/AttoRendering.cpp:74-95 | every tile gets the position and the four texture coordinates of the placement loop and keeps its size and bytes |
| Input.JustDownAndJustUpExclusive | atto/src/AttoInput.h:174-177 | an entry is never just down and just up at once; just down means down and just up means up |
| Input.AfterAction | atto/src/AttoLib.cpp:115-122 | a press leaves the entry just down, a release leaves it just up, any other action changes nothing, and no other entry changes |
| Input.AfterActionIdempotent | atto/src/AttoLib.cpp:115-122 | reporting the same action twice is the same as reporting it once |
| Input.LastActionDecides | atto/src/AttoLib.cpp:115-122 | after a press or a release the state does not depend on what came before |
| Input.EngineMouseArraysMissLastButton | atto/src/AttoInput.h:146-168 | the engine's mouse arrays have MOUSE_BUTTON_LAST = 7 entries, one fewer than the buttons GLFW reports |
| Input.FrameInput.constructor | atto/src/AttoInput.h:161-168 | key arrays of 349 entries and mouse arrays of 8, every flag false |
| Input.FrameInput.KeyCallback | atto/src/AttoLib.cpp:106-127 | a negative key changes nothing; otherwise the flags are AfterAction of the old ones, and after a press IsKeyJustDown holds |
| Input.FrameInput.MouseButtonCallback | atto/src/AttoLib.cpp:136-148 | the flags are AfterAction of the old ones; after a press IsMouseJustDown and IsMouseDown hold, after a release IsMouseJustUp holds and IsMouseDown does not |

## Left out

- f32 rounding: coordinates, overlaps and interpolation are exact `real` arithmetic.
- AttoMath.ClampLength: does not model the normalising branch (`glm::normalize(v) * maxLength`), which needs a square root. It returns None there.
- `Circle::Collision` and `CollisionTests::CirclePoly` rely on `glm::length` and `glm::normalize`, which are square-root numerics.
- AttoMath.BoxBounds.Translate: modelled as a function returning the moved box rather than an update in place. The engine only uses it on local copies.
- AttoMath.TranslatePolygon: `PolygonCollider::Translate` updates the collider's vertices in place; the model loops over a copy of the vertices and returns the moved polygon.
- Triangulation.RemoveAt: assumes FixedList's `RemoveIndex` removes the vertex and keeps the remaining vertices in order; its code (AttoContainers.h) is not part of this model.
- `SortPointsIntoClockWiseOrder` is not modelled (an `atan2` comparison under `qsort_s`). Triangulation.Triangulate takes the sorted vertices as a parameter that must be a permutation of the polygon's.
- Triangulation.Triangulate: the outVertices buffer is required to hold at least 3 and at least outVerticesCapcity vertices. The engine leaves these to its callers.
- The `ATTOERROR` message of Triangulate is not modelled (logging).
- TileSheet.Isqrt: the atlas side `(u32)(glm::sqrt((f32)n) + 1)` is modelled as the exact integer square root plus one. f32 rounding of sqrt for very large counts is not modelled.
- TileSheet.Ratio: the texture coordinates of GenerateTiles are f32 divisions by the atlas width and height; the model divides exactly in `real`, and an atlas side of zero (all tiles zero-width or zero-height), where the engine divides by zero and gets infinity or NaN, gives 0.
- TileSheet.TileSheetGenerator.GenerateTiles: does not model 32-bit wrap-around of the atlas size `widthInPixels * heightInPixels * 4` or of the i32 pixel offsets. The model uses unbounded integers.
- `FixedList`/`List` (AttoContainers.h) is not part of this model. Lists are sequences, and "the count stays within capacity" is a precondition of the operations that add to them:
  - MapStore.Map.MapCreate
  - TileSheet.TileSheetGenerator.AddTile
- MapStore.Map.MapCreate: its requires that the map data hold width * height characters and that the tile lists have room reflect reads and `Add`s the engine does not check. Reading past the end of the string is undefined in the engine.
- TileSheet.TileSheetGenerator.AddTile: the assert on the size is a precondition, and `data` must hold width * height bytes because `memcpy` reads that many.
- MapStore.Map.MapGetEntity / MapStore.Map.MapDestroyEntity: require the handle to be invalid or to have an index inside the store. The engine indexes `unitEntities[id.index]` unchecked (atto/src/AttoAsset.cpp:770 and :781).
- PackedAsset.ReadItem / PackedAsset.PackedAssetFile.GetList: a negative List count gives `Err(NegativeCount)` and a FixedList count above its capacity gives `Err(CountOverCapacity)`. These stand in for what `List::SetNum` and `FixedList::SetCount` (atto/src/AttoAsset.h:275 and :283) do with such counts; their code (AttoContainers.h) is not part of this model, so ReadItemConforms's "a FixedList never more than its capacity" rests on this choice.
- The `Assert` of MapCreateEntity on a full store is modelled as returning None, the null pointer the engine returns after the assert.
- The `Assert` of GetData/Get on a short buffer is modelled as an `Err` result, with the cursor left unmoved.
- The `Assert` of GenerateTiles on a tile that overruns the atlas is modelled as `ok == false`.
- `AssetId::Create(const char*)` hashes a string. The model takes the resulting ids as parameters (`tileTestId`, `tileBlockerId`), and GetSpriteAsset's registered list is a parameter.
- The `UnitTarget` union of a ground position and a unit id is modelled as two separate fields.
- Pointers into the slot array are modelled as slot indices. The entity a `MapDestroyEntity` pointer points to is passed as a value.
- `PackedAssetFile::Save` and `Load` are file I/O. The buffer they write or fill is the `storedData` sequence, and `isLoading` is a field the caller sets.
- The texture `data` field, whose `Serialize` call is commented out in the engine, is not serialized, matching the engine.
- The console key callback invoked at the end of KeyCallback is a foreign function pointer.
- `MousePositionCallback` stores a float mouse position.
- The engine's `Action` enumeration is not used by the callbacks, which compare with GLFW's values.
- Input.FrameInput.KeyCallback: requires `key < 349`. It relies on GLFW never reporting a key code above GLFW_KEY_LAST (348), since the engine indexes the arrays unchecked.
- Input.FrameInput.MouseButtonCallback: uses mouse arrays of 8 entries (buttons 0 to 7), the corrected size, instead of the engine's 7 (see Findings).
- `LeEngine::Update`, the camera transforms, steering, random numbers and all rendering, audio and UI submission are outside this model: they are float matrices, trigonometry, a random generator or foreign calls.

## Findings

| source | as written | input that shows it | evidently intended | confidence | as-written member | corrected member |
|---|---|---|---|---|---|---|
| atto/src/AttoRendering.cpp:48-49 | `const u32 size = width * height` wraps modulo 2^32 before the capacity check | width = height = 65536: the product wraps to 0, the check passes and the tile claims 65536 by 65536 pixels with no bytes | reject any tile whose true pixel count is not below the 2048-byte capacity | not executed | TileSheet.WrappedSizeAdmitsHugeTile | TileSheet.TileSheetGenerator.AddTile |
| atto/src/AttoRendering.cpp:88-95, 107-108 | when every tile has width 0, `xp += tileWidth` never moves and `xp >= wp` (0 >= 0) starts a new row after every tile | three tiles of 0 by 1: k = 2, the atlas is 0 by 2 pixels, and the third tile is placed at y = 2, so the assert at line 108 fires | place tile t in cell t % k of row t / k, which keeps every tile inside the atlas | not executed | TileSheet.ZeroWidthTilesLeaveAtlas | TileSheet.GridPositionInside |
| atto/src/AttoInput.h:146,167-168 and atto/src/AttoLib.cpp:140-147 | the mouse arrays have MOUSE_BUTTON_LAST = 7 entries, but GLFW reports buttons 0 to 7 and the callback indexes them unchecked | button 7 (GLFW_MOUSE_BUTTON_8) pressed: the callback writes one past the end of both arrays | arrays of MOUSE_BUTTON_LAST + 1 entries | not executed | Input.EngineMouseArraysMissLastButton | Input.FrameInput.MouseButtonCallback |
