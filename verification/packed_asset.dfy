/** PackedAssetFile (AttoAsset.h and AttoAsset.cpp): an append-only byte buffer
    with a read cursor. Writing appends the raw bytes of a value (`sizeof(T)` of
    them, little-endian as on the engine's targets); reading checks the bound,
    copies the bytes at the cursor and advances it. Lists are a 4-byte count
    followed by their raw elements. Floats are carried as their 32-bit patterns:
    the buffer only ever copies them. */
module PackedAsset {
  import opened Wrappers

  /////////////////////////////////////////////////////////////////////////////
  // Bytes of 32-bit words

  const TWO_32: int := 0x1_0000_0000
  const TWO_31: int := 0x8000_0000

  /** Byte `i` (0 the least significant) of a word. */
  function ByteOf(w: u32, i: nat): byte
    requires i < 4
  {
    if i == 0 then w % 0x100
    else if i == 1 then (w / 0x100) % 0x100
    else if i == 2 then (w / 0x1_0000) % 0x100
    else w / 0x100_0000
  }

  /** The four little-endian bytes of a word. */
  function WordBytes(w: u32): (r: seq<byte>)
    ensures |r| == 4
  {
    seq(4, i requires 0 <= i < 4 => ByteOf(w, i))
  }

  /** The word whose little-endian bytes sit at `offset` in `data`. */
  function WordAt(data: seq<byte>, offset: nat): (r: u32)
    requires offset + 4 <= |data|
  {
    var b0: int, b1: int, b2: int, b3: int := data[offset], data[offset + 1], data[offset + 2], data[offset + 3];
    b0 + 0x100 * b1 + 0x1_0000 * b2 + 0x100_0000 * b3
  }

  lemma {:induction false} WordRoundTrip(w: u32)
    ensures WordAt(WordBytes(w), 0) == w
  {
    var b := WordBytes(w);
    assert b[0] == ByteOf(w, 0) && b[1] == ByteOf(w, 1) && b[2] == ByteOf(w, 2) && b[3] == ByteOf(w, 3);
    BytesOfWord(w);
  }

  /** A word is the sum of its bytes, each weighted by its place. */
  lemma {:induction false} BytesOfWord(w: u32)
    ensures w == ByteOf(w, 0) + 0x100 * ByteOf(w, 1) + 0x1_0000 * ByteOf(w, 2) + 0x100_0000 * ByteOf(w, 3)
  {
    assert w == w % 0x100 + 0x100 * (w / 0x100);
    assert w / 0x100 == (w / 0x100) % 0x100 + 0x100 * (w / 0x1_0000);
    assert w / 0x1_0000 == (w / 0x1_0000) % 0x100 + 0x100 * (w / 0x100_0000);
  }

  /** The two's-complement bit pattern of an i32. */
  function I32Bits(x: i32): u32 {
    if x < 0 then x + TWO_32 else x
  }

  /** The i32 whose two's-complement bit pattern is `w`. */
  function I32OfBits(w: u32): i32 {
    if w >= TWO_31 then w - TWO_32 else w
  }

  /** The pattern agrees with the number modulo 2^32, and reading it back gives
      the number. */
  lemma {:induction false} I32BitsRoundTrip(x: i32)
    ensures I32Bits(x) % TWO_32 == x % TWO_32
    ensures I32OfBits(I32Bits(x)) == x
  {
  }

  function WordsBytes(ws: seq<u32>): (r: seq<byte>)
    ensures |r| == 4 * |ws|
  {
    if |ws| == 0 then [] else WordBytes(ws[0]) + WordsBytes(ws[1..])
  }

  /** The words stored back to back from `offset` up to `end`. */
  function WordsAt(data: seq<byte>, offset: nat, end: nat): (r: seq<u32>)
    requires offset <= end <= |data| && (end - offset) % 4 == 0
    ensures 4 * |r| == end - offset
    decreases end - offset
  {
    if offset == end then [] else [WordAt(data, offset)] + WordsAt(data, offset + 4, end)
  }

  /////////////////////////////////////////////////////////////////////////////
  // Where bytes sit in the buffer

  /** `b` sits in `data` starting at `offset`. */
  predicate BytesAt(data: seq<byte>, offset: nat, b: seq<byte>) {
    BytesFrom(data, offset, b)
  }

  /** BytesAt, byte by byte. */
  predicate BytesFrom(data: seq<byte>, offset: nat, b: seq<byte>)
    decreases |b|
  {
    offset + |b| <= |data| && (|b| == 0 || (data[offset] == b[0] && BytesFrom(data, offset + 1, b[1..])))
  }

  lemma {:induction false} BytesAtIndex(data: seq<byte>, offset: nat, b: seq<byte>, i: nat)
    requires BytesAt(data, offset, b) && i < |b|
    ensures data[offset + i] == b[i]
    decreases i
  {
    if i > 0 {
      BytesAtIndex(data, offset + 1, b[1..], i - 1);
    }
  }

  lemma {:induction false} BytesAtSplit(data: seq<byte>, offset: nat, a: seq<byte>, b: seq<byte>)
    requires BytesAt(data, offset, a + b)
    ensures BytesAt(data, offset, a) && BytesAt(data, offset + |a|, b)
    decreases |a|
  {
    if |a| > 0 {
      assert (a + b)[0] == a[0] && (a + b)[1..] == a[1..] + b;
      BytesAtSplit(data, offset + 1, a[1..], b);
    } else {
      assert a + b == b;
    }
  }

  /** BytesAtSplit for a `whole` known to be `a` then `b`. */
  lemma {:induction false} BytesAtSplitOf(data: seq<byte>, offset: nat, whole: seq<byte>, a: seq<byte>, b: seq<byte>)
    requires whole == a + b && BytesAt(data, offset, whole)
    ensures BytesAt(data, offset, a) && BytesAt(data, offset + |a|, b)
  {
    BytesAtSplit(data, offset, a, b);
  }

  lemma {:induction false} BytesAtSlice(data: seq<byte>, offset: nat)
    requires offset <= |data|
    ensures BytesAt(data, offset, data[offset..])
    decreases |data| - offset
  {
    if offset < |data| {
      assert data[offset..][1..] == data[offset + 1..];
      BytesAtSlice(data, offset + 1);
    }
  }

  lemma {:induction false} WordAtBytes(data: seq<byte>, offset: nat, w: u32)
    requires BytesAt(data, offset, WordBytes(w))
    ensures WordAt(data, offset) == w
  {
    var b := WordBytes(w);
    BytesAtIndex(data, offset, b, 1);
    BytesAtIndex(data, offset, b, 2);
    BytesAtIndex(data, offset, b, 3);
    WordRoundTrip(w);
  }

  lemma {:induction false} WordsAtBytes(data: seq<byte>, offset: nat, ws: seq<u32>)
    requires BytesAt(data, offset, WordsBytes(ws))
    ensures WordsAt(data, offset, offset + 4 * |ws|) == ws
    decreases |ws|
  {
    if |ws| > 0 {
      BytesAtSplitOf(data, offset, WordsBytes(ws), WordBytes(ws[0]), WordsBytes(ws[1..]));
      WordAtBytes(data, offset, ws[0]);
      WordsAtBytes(data, offset + 4, ws[1..]);
    }
  }

  /////////////////////////////////////////////////////////////////////////////
  // The values the engine serializes

  /** A font glyph: integer size and bearing, float UV corners (bit patterns)
      and an unsigned advance; 36 bytes. */
  datatype Glyph = Glyph(
    sizeX: i32, sizeY: i32,
    bearingX: i32, bearingY: i32,
    uv0x: u32, uv0y: u32, uv1x: u32, uv1y: u32,
    advance: u32)

  /** One value written by a single `Put`, tagged with its C++ type. */
  datatype Value =
    | I32Value(i: i32)
    | U32Value(u: u32)
    | BoolValue(b: bool)
    | GlyphValue(g: Glyph)

  datatype Kind = I32Kind | U32Kind | BoolKind | GlyphKind

  function KindOf(v: Value): Kind {
    match v
    case I32Value(_) => I32Kind
    case U32Value(_) => U32Kind
    case BoolValue(_) => BoolKind
    case GlyphValue(_) => GlyphKind
  }

  /** `sizeof(T)` for each serialized type. */
  function SizeOf(k: Kind): nat {
    match k
    case I32Kind => 4
    case U32Kind => 4
    case BoolKind => 1
    case GlyphKind => 36
  }

  /** The bytes taken by `n` values of kind `k` stored back to back
      (`n * sizeof(T)`). */
  function SizeOfMany(k: Kind, n: nat): nat {
    match k
    case I32Kind => 4 * n
    case U32Kind => 4 * n
    case BoolKind => n
    case GlyphKind => 36 * n
  }

  function GlyphWords(g: Glyph): (r: seq<u32>)
    ensures |r| == 9
  {
    [I32Bits(g.sizeX), I32Bits(g.sizeY), I32Bits(g.bearingX), I32Bits(g.bearingY),
     g.uv0x, g.uv0y, g.uv1x, g.uv1y, g.advance]
  }

  function GlyphOfWords(ws: seq<u32>): Glyph
    requires |ws| == 9
  {
    Glyph(I32OfBits(ws[0]), I32OfBits(ws[1]), I32OfBits(ws[2]), I32OfBits(ws[3]),
          ws[4], ws[5], ws[6], ws[7], ws[8])
  }

  /** The raw bytes `memcpy` copies out of a value. */
  function Encode(v: Value): (r: seq<byte>)
    ensures |r| == SizeOf(KindOf(v))
  {
    match v
    case I32Value(x) => WordBytes(I32Bits(x))
    case U32Value(x) => WordBytes(x)
    case BoolValue(x) => [if x then 1 else 0]
    case GlyphValue(g) => WordsBytes(GlyphWords(g))
  }

  /** The value `memcpy` makes of the `sizeof(T)` raw bytes at `offset`. A bool
      byte other than 0 and 1 is read as true. */
  function DecodeAt(k: Kind, data: seq<byte>, offset: nat): (r: Value)
    requires offset + SizeOf(k) <= |data|
    ensures KindOf(r) == k
  {
    match k
    case I32Kind => I32Value(I32OfBits(WordAt(data, offset)))
    case U32Kind => U32Value(WordAt(data, offset))
    case BoolKind => BoolValue(data[offset] != 0)
    case GlyphKind => GlyphValue(GlyphOfWords(WordsAt(data, offset, offset + 36)))
  }

  /** Decoding the bytes of a value, wherever they sit, gives the value back. */
  lemma {:induction false} DecodeAtEncode(v: Value, data: seq<byte>, offset: nat)
    requires BytesAt(data, offset, Encode(v))
    ensures DecodeAt(KindOf(v), data, offset) == v
  {
    match v
    case I32Value(x) =>
      WordAtBytes(data, offset, I32Bits(x));
      I32BitsRoundTrip(x);
    case U32Value(x) =>
      WordAtBytes(data, offset, x);
    case BoolValue(x) =>
    case GlyphValue(g) =>
      WordsAtBytes(data, offset, GlyphWords(g));
      I32BitsRoundTrip(g.sizeX);
      I32BitsRoundTrip(g.sizeY);
      I32BitsRoundTrip(g.bearingX);
      I32BitsRoundTrip(g.bearingY);
  }

  /** The raw bytes of a list's elements, back to back. */
  function EncodeAll(vs: seq<Value>): (r: seq<byte>)
  {
    if |vs| == 0 then [] else Encode(vs[0]) + EncodeAll(vs[1..])
  }

  predicate AllOfKind(vs: seq<Value>, k: Kind) {
    forall i :: 0 <= i < |vs| ==> KindOf(vs[i]) == k
  }

  /** The `n` elements of kind `k` stored back to back at `offset`. */
  function DecodeAllAt(k: Kind, data: seq<byte>, offset: nat, n: nat): (r: seq<Value>)
    requires offset + SizeOfMany(k, n) <= |data|
    ensures |r| == n && AllOfKind(r, k)
    decreases n
  {
    if n == 0 then []
    else [DecodeAt(k, data, offset)] + DecodeAllAt(k, data, offset + SizeOf(k), n - 1)
  }

  /** A list's raw elements take `n * sizeof(T)` bytes and decode back to the
      list. */
  lemma {:induction false} DecodeAllAtEncodeAll(vs: seq<Value>, k: Kind, data: seq<byte>, offset: nat)
    requires AllOfKind(vs, k)
    requires BytesAt(data, offset, EncodeAll(vs))
    ensures |EncodeAll(vs)| == SizeOfMany(k, |vs|)
    ensures DecodeAllAt(k, data, offset, |vs|) == vs
  {
    if |vs| > 0 {
      BytesAtSplitOf(data, offset, EncodeAll(vs), Encode(vs[0]), EncodeAll(vs[1..]));
      DecodeAtEncode(vs[0], data, offset);
      DecodeAllAtEncodeAll(vs[1..], k, data, offset + SizeOf(k));
    }
  }

  /////////////////////////////////////////////////////////////////////////////
  // What one Serialize call writes and reads

  /** A count that fits the 32-bit count field of a serialized list. */
  type Count = x: int | 0 <= x < 0x8000_0000

  /** The C++ type of one serialized variable: a plain value, a `List<T>` (its
      count read as an i32) or a `FixedList<T, c>` (its count read as a u32). */
  datatype Shape =
    | ScalarShape(kind: Kind)
    | ListShape(kind: Kind)
    | FixedListShape(kind: Kind, capacity: Count)

  /** The elements of a list whose count fits the 32-bit count field. */
  type Elems = s: seq<Value> | |s| < 0x8000_0000

  /** The content of one serialized variable. */
  datatype Item = Scalar(value: Value) | Elements(elems: Elems)

  /** `item` is a value of a variable of type `shape`. A list's count must fit
      the 32-bit count field, and a fixed list its capacity. */
  predicate Conforms(item: Item, shape: Shape) {
    match shape
    case ScalarShape(k) => item.Scalar? && KindOf(item.value) == k
    case ListShape(k) => item.Elements? && AllOfKind(item.elems, k)
    case FixedListShape(k, c) => item.Elements? && AllOfKind(item.elems, k) && |item.elems| <= c
  }

  /** Each item is a value of the variable of the same position. */
  predicate ConformsAll(items: seq<Item>, shapes: seq<Shape>)
    decreases |items|
  {
    |items| == |shapes|
    && (|items| == 0 || (Conforms(items[0], shapes[0]) && ConformsAll(items[1..], shapes[1..])))
  }

  /** ConformsAll is the position-by-position check. */
  lemma {:induction false} ConformsAllPointwise(items: seq<Item>, shapes: seq<Shape>)
    ensures ConformsAll(items, shapes)
      <==> |items| == |shapes| && forall i :: 0 <= i < |items| ==> Conforms(items[i], shapes[i])
    decreases |items|
  {
    if |items| > 0 && |items| == |shapes| {
      ConformsAllPointwise(items[1..], shapes[1..]);
      assert forall i :: 1 <= i < |items| ==> items[1..][i - 1] == items[i] && shapes[1..][i - 1] == shapes[i];
    }
  }

  lemma {:induction false} ConformsAt(items: seq<Item>, shapes: seq<Shape>, i: nat)
    requires ConformsAll(items, shapes) && i < |items|
    ensures i < |shapes| && Conforms(items[i], shapes[i])
  {
    ConformsAllPointwise(items, shapes);
  }

  /** What `Put` appends for a variable: its raw bytes, or a list's count
      followed by the raw bytes of its elements. */
  function EncodeItem(item: Item): (r: seq<byte>)
  {
    match item
    case Scalar(v) => Encode(v)
    case Elements(vs) => Encode(I32Value(|vs|)) + EncodeAll(vs)
  }

  datatype SerializeError =
    | OutOfData          // the bound check `currentOffset + size <= storedData.GetNum()` failed
    | NegativeCount      // a List count read back negative
    | CountOverCapacity  // a FixedList count read back above its capacity

  /** GetData's bound check and copy: `size` bytes at `offset`, and the offset
      after them. */
  function ReadBytes(data: seq<byte>, offset: nat, size: nat): (r: Result<(seq<byte>, nat), SerializeError>)
    ensures r.Ok? <==> offset + size <= |data|
    ensures r.Ok? ==> r.value.0 == data[offset..offset + size] && r.value.1 == offset + size
  {
    if offset + size <= |data| then Ok((data[offset..offset + size], offset + size))
    else Err(OutOfData)
  }

  /** Get for a plain value of kind `k`. */
  function ReadValue(k: Kind, data: seq<byte>, offset: nat): (r: Result<(Value, nat), SerializeError>)
    ensures r.Ok? <==> offset + SizeOf(k) <= |data|
    ensures r.Ok? ==> KindOf(r.value.0) == k && r.value.1 == offset + SizeOf(k)
  {
    if offset + SizeOf(k) <= |data| then Ok((DecodeAt(k, data, offset), offset + SizeOf(k)))
    else Err(OutOfData)
  }

  /** GetData for `count` elements of kind `k`, after a list's count. */
  function ReadElements(k: Kind, count: nat, data: seq<byte>, offset: nat): (r: Result<(Item, nat), SerializeError>)
    requires count < TWO_31
    ensures r.Ok? <==> offset + SizeOfMany(k, count) <= |data|
    ensures r.Ok? ==> r.value.0.Elements? && |r.value.0.elems| == count && r.value.1 == offset + SizeOfMany(k, count)
  {
    if offset + SizeOfMany(k, count) <= |data| then
      Ok((Elements(DecodeAllAt(k, data, offset, count)), offset + SizeOfMany(k, count)))
    else Err(OutOfData)
  }

  /** Get for a variable of type `shape`. */
  function ReadItem(shape: Shape, data: seq<byte>, offset: nat): (r: Result<(Item, nat), SerializeError>)
    ensures r.Ok? ==> offset < r.value.1 <= |data|
  {
    match shape
    case ScalarShape(k) =>
      (match ReadValue(k, data, offset)
       case Ok((v, next)) => Ok((Scalar(v), next))
       case Err(e) => Err(e))
    case ListShape(k) =>
      (match ReadValue(I32Kind, data, offset)
       case Err(e) => Err(e)
       case Ok((count, next)) =>
         if count.i < 0 then Err(NegativeCount)
         else ReadElements(k, count.i, data, next))
    case FixedListShape(k, c) =>
      (match ReadValue(U32Kind, data, offset)
       case Err(e) => Err(e)
       case Ok((count, next)) =>
         if count.u > c then Err(CountOverCapacity)
         else ReadElements(k, count.u, data, next))
  }

  /** A variable read has the type it was read as: a list read back holds
      elements of its kind, and a fixed list no more than its capacity. */
  lemma {:induction false} ReadItemConforms(shape: Shape, data: seq<byte>, offset: nat)
    ensures ReadItem(shape, data, offset).Ok? ==> Conforms(ReadItem(shape, data, offset).value.0, shape)
  {
  }

  /** Reading the bytes of one variable back, wherever they sit in the buffer,
      gives the variable back and leaves the cursor just past them. */
  lemma {:induction false} ReadItemEncodeItem(item: Item, shape: Shape, data: seq<byte>, offset: nat)
    requires Conforms(item, shape)
    requires BytesAt(data, offset, EncodeItem(item))
    ensures ReadItem(shape, data, offset) == Ok((item, offset + |EncodeItem(item)|))
  {
    var end := offset + |EncodeItem(item)|;
    match item
    case Scalar(v) =>
      ReadValueEncoded(v, data, offset, end);
      ReadScalarItem(shape, data, offset, v, end);
    case Elements(vs) =>
      ReadListEncoded(vs, shape, data, offset, end);
      ReadListItem(shape, data, offset, vs, end);
  }

  lemma {:induction false} ReadValueEncoded(v: Value, data: seq<byte>, offset: nat, end: nat)
    requires BytesAt(data, offset, Encode(v)) && end == offset + |Encode(v)|
    ensures ReadValue(KindOf(v), data, offset) == Ok((v, end))
  {
    DecodeAtEncode(v, data, offset);
  }

  /** The two reads of a list written at `offset`: its count, as an i32 and
      as a u32, and then its elements. */
  lemma {:induction false} ReadListEncoded(vs: Elems, shape: Shape, data: seq<byte>, offset: nat, end: nat)
    requires !shape.ScalarShape? && Conforms(Elements(vs), shape)
    requires BytesAt(data, offset, EncodeItem(Elements(vs)))
    requires end == offset + |EncodeItem(Elements(vs))|
    ensures ReadValue(I32Kind, data, offset) == Ok((I32Value(|vs|), offset + 4))
    ensures ReadValue(U32Kind, data, offset) == Ok((U32Value(|vs|), offset + 4))
    ensures ReadElements(shape.kind, |vs|, data, offset + 4) == Ok((Elements(vs), end))
  {
    var elems := EncodeAll(vs);
    BytesAtSplitOf(data, offset, EncodeItem(Elements(vs)), Encode(I32Value(|vs|)), elems);
    ReadCountEncoded(|vs|, data, offset);
    ReadElementsEncoded(vs, shape.kind, data, offset + 4, end);
  }

  /** Put writes a list's count through an i32; Get of a List reads it back as
      an i32 and Get of a FixedList reads the same bytes as a u32. */
  lemma {:induction false} ReadCountEncoded(n: Count, data: seq<byte>, offset: nat)
    requires BytesAt(data, offset, Encode(I32Value(n)))
    ensures ReadValue(I32Kind, data, offset) == Ok((I32Value(n), offset + 4))
    ensures ReadValue(U32Kind, data, offset) == Ok((U32Value(n), offset + 4))
  {
    ReadValueEncoded(I32Value(n), data, offset, offset + 4);
    assert Encode(U32Value(n)) == Encode(I32Value(n));
    ReadValueEncoded(U32Value(n), data, offset, offset + 4);
  }

  lemma {:induction false} ReadElementsEncoded(vs: Elems, k: Kind, data: seq<byte>, offset: nat, end: nat)
    requires AllOfKind(vs, k) && BytesAt(data, offset, EncodeAll(vs))
    requires end == offset + |EncodeAll(vs)|
    ensures ReadElements(k, |vs|, data, offset) == Ok((Elements(vs), end))
  {
    DecodeAllAtEncodeAll(vs, k, data, offset);
  }

  /** ReadItem for a plain value, from the result of its read. */
  lemma {:induction false} ReadScalarItem(shape: Shape, data: seq<byte>, offset: nat, v: Value, end: nat)
    requires shape == ScalarShape(KindOf(v))
    requires ReadValue(KindOf(v), data, offset) == Ok((v, end))
    ensures ReadItem(shape, data, offset) == Ok((Scalar(v), end))
  {
  }

  /** ReadItem for a list, from the results of its two reads. */
  lemma {:induction false} ReadListItem(shape: Shape, data: seq<byte>, offset: nat, vs: Elems, end: nat)
    requires !shape.ScalarShape?
    requires shape.ListShape? ==> ReadValue(I32Kind, data, offset) == Ok((I32Value(|vs|), offset + 4))
    requires shape.FixedListShape? ==>
      ReadValue(U32Kind, data, offset) == Ok((U32Value(|vs|), offset + 4)) && |vs| <= shape.capacity
    requires ReadElements(shape.kind, |vs|, data, offset + 4) == Ok((Elements(vs), end))
    ensures ReadItem(shape, data, offset) == Ok((Elements(vs), end))
  {
  }

  /////////////////////////////////////////////////////////////////////////////
  // A sequence of Serialize calls

  /** What a sequence of writes appends. */
  function EncodeItems(items: seq<Item>): (r: seq<byte>)
  {
    if |items| == 0 then [] else EncodeItem(items[0]) + EncodeItems(items[1..])
  }

  lemma {:induction false} EncodeItemsAppend(items: seq<Item>, item: Item)
    ensures EncodeItems(items + [item]) == EncodeItems(items) + EncodeItem(item)
  {
    if |items| > 0 {
      assert (items + [item])[1..] == items[1..] + [item];
      EncodeItemsAppend(items[1..], item);
    }
  }

  /** A sequence of reads, one per shape, starting at `offset`; the first one to
      fail stops the sequence. */
  function ReadItems(shapes: seq<Shape>, data: seq<byte>, offset: nat): (r: Result<(seq<Item>, nat), SerializeError>)
    ensures r.Ok? ==> |r.value.0| == |shapes| && offset <= r.value.1
    decreases |shapes|
  {
    if |shapes| == 0 then Ok(([], offset))
    else match ReadItem(shapes[0], data, offset)
      case Err(e) => Err(e)
      case Ok((first, next)) => Then([first], ReadItems(shapes[1..], data, next))
  }

  /** The reads `done` already made, followed by the outcome of the rest. */
  function Then(done: seq<Item>, rest: Result<(seq<Item>, nat), SerializeError>): (r: Result<(seq<Item>, nat), SerializeError>)
    ensures r.Ok? <==> rest.Ok?
    ensures r.Ok? ==> r.value == (done + rest.value.0, rest.value.1)
    ensures r.Err? ==> r.error == rest.error
  {
    match rest
    case Ok((items, last)) => Ok((done + items, last))
    case Err(e) => Err(e)
  }

  /** Every variable read has the type it was read as. */
  lemma {:induction false} ReadItemsConform(shapes: seq<Shape>, data: seq<byte>, offset: nat)
    ensures ReadItems(shapes, data, offset).Ok? ==> ConformsAll(ReadItems(shapes, data, offset).value.0, shapes)
    decreases |shapes|
  {
    if |shapes| > 0 && ReadItems(shapes, data, offset).Ok? {
      var (first, next) := ReadItem(shapes[0], data, offset).value;
      ReadItemConforms(shapes[0], data, offset);
      ReadItemsConform(shapes[1..], data, next);
      var rest := ReadItems(shapes[1..], data, next).value.0;
      assert ([first] + rest)[0] == first && ([first] + rest)[1..] == rest;
    }
  }

  /** Reading variables of types `shapes` at `offset` gives back `items` and
      ends at `end`. */
  predicate ReadsBack(shapes: seq<Shape>, data: seq<byte>, offset: nat, items: seq<Item>, end: nat) {
    ReadItems(shapes, data, offset) == Ok((items, end))
  }

  /** The round trip: reading back what a sequence of writes appended, from the
      offset where it starts, gives back the same variables, and the cursor ends
      just past the written bytes. */
  lemma {:induction false} ReadItemsEncodeItems(items: seq<Item>, shapes: seq<Shape>, data: seq<byte>, offset: nat, end: nat)
    requires ConformsAll(items, shapes)
    requires BytesAt(data, offset, EncodeItems(items))
    requires end == offset + |EncodeItems(items)|
    ensures ReadsBack(shapes, data, offset, items, end)
  {
    EncodedItemsRead(items, shapes, data, offset, end);
    EachReadsBack(shapes, items, data, offset, end);
  }

  /** Each variable, read on its own where the one before it ends, reads back,
      and the last one ends at `end`. */
  predicate EachReads(shapes: seq<Shape>, items: seq<Item>, data: seq<byte>, offset: nat, end: nat)
    decreases |items|
  {
    |items| == |shapes|
    && (|items| == 0 ==> end == offset)
    && (|items| > 0 ==>
          ReadItem(shapes[0], data, offset) == Ok((items[0], offset + |EncodeItem(items[0])|))
          && EachReads(shapes[1..], items[1..], data, offset + |EncodeItem(items[0])|, end))
  }

  /** The variables `items`, of types `shapes`, were written at `offset` and
      their bytes end at `end`. */
  predicate EncodedFrom(items: seq<Item>, shapes: seq<Shape>, data: seq<byte>, offset: nat, end: nat) {
    ConformsAll(items, shapes) && BytesAt(data, offset, EncodeItems(items)) && end == offset + |EncodeItems(items)|
  }

  lemma {:induction false} EncodedItemsRead(items: seq<Item>, shapes: seq<Shape>, data: seq<byte>, offset: nat, end: nat)
    requires EncodedFrom(items, shapes, data, offset, end)
    ensures EachReads(shapes, items, data, offset, end)
    decreases |items|
  {
    if |items| > 0 {
      EncodedHead(items, data, offset);
      EncodedTail(items, shapes, data, offset, end);
      EncodedItemsRead(items[1..], shapes[1..], data, offset + |EncodeItem(items[0])|, end);
      ReadHead(items, shapes, data, offset);
    }
  }

  lemma {:induction false} EachReadsBack(shapes: seq<Shape>, items: seq<Item>, data: seq<byte>, offset: nat, end: nat)
    requires EachReads(shapes, items, data, offset, end)
    ensures ReadsBack(shapes, data, offset, items, end)
    decreases |items|
  {
    if |items| > 0 {
      var next := offset + |EncodeItem(items[0])|;
      EachReadsBack(shapes[1..], items[1..], data, next, end);
      ReadItemsStep(shapes, data, offset, items, next, end);
    }
  }

  /** The first variable's bytes start the run. */
  lemma {:induction false} EncodedHead(items: seq<Item>, data: seq<byte>, offset: nat)
    requires |items| > 0 && BytesAt(data, offset, EncodeItems(items))
    ensures BytesAt(data, offset, EncodeItem(items[0]))
  {
    BytesAtSplitOf(data, offset, EncodeItems(items), EncodeItem(items[0]), EncodeItems(items[1..]));
  }

  /** The first variable reads back from its bytes. */
  lemma {:induction false} ReadHead(items: seq<Item>, shapes: seq<Shape>, data: seq<byte>, offset: nat)
    requires |items| > 0 && ConformsAll(items, shapes)
    requires BytesAt(data, offset, EncodeItem(items[0]))
    ensures ReadItem(shapes[0], data, offset) == Ok((items[0], offset + |EncodeItem(items[0])|))
  {
    ReadItemEncodeItem(items[0], shapes[0], data, offset);
  }

  /** The bytes of the variables after the first follow the first one's. */
  lemma {:induction false} EncodedTail(items: seq<Item>, shapes: seq<Shape>, data: seq<byte>, offset: nat, end: nat)
    requires |items| > 0 && EncodedFrom(items, shapes, data, offset, end)
    ensures EncodedFrom(items[1..], shapes[1..], data, offset + |EncodeItem(items[0])|, end)
  {
    BytesAtSplitOf(data, offset, EncodeItems(items), EncodeItem(items[0]), EncodeItems(items[1..]));
  }

  /** ReadItems from the results of its first read and of the reads after it. */
  lemma {:induction false} ReadItemsStep(shapes: seq<Shape>, data: seq<byte>, offset: nat, items: seq<Item>, next: nat, end: nat)
    requires |items| > 0 && |items| == |shapes|
    requires ReadItem(shapes[0], data, offset) == Ok((items[0], next))
    requires ReadsBack(shapes[1..], data, next, items[1..], end)
    ensures ReadsBack(shapes, data, offset, items, end)
  {
    assert [items[0]] + items[1..] == items;
  }

  /** The round trip from a fresh buffer: reading from offset 0 consumes exactly
      the whole buffer. */
  lemma {:induction false} RoundTripFromStart(items: seq<Item>, shapes: seq<Shape>)
    requires ConformsAll(items, shapes)
    ensures ReadItems(shapes, EncodeItems(items), 0) == Ok((items, |EncodeItems(items)|))
  {
    BytesAtSlice(EncodeItems(items), 0);
    assert EncodeItems(items)[0..] == EncodeItems(items);
    ReadItemsEncodeItems(items, shapes, EncodeItems(items), 0, |EncodeItems(items)|);
  }

  /** Reading variable `i` of a sequence: the reads so far, then this one, then
      the rest. */
  lemma {:induction false} ReadItemsNext(shapes: seq<Shape>, data: seq<byte>, done: seq<Item>, offset: nat)
    requires |done| < |shapes|
    ensures Then(done, ReadItems(shapes[|done|..], data, offset)) ==
      match ReadItem(shapes[|done|], data, offset)
      case Err(e) => Err(e)
      case Ok((item, next)) => Then(done + [item], ReadItems(shapes[|done| + 1..], data, next))
  {
    var rest := shapes[|done|..];
    assert rest[0] == shapes[|done|] && rest[1..] == shapes[|done| + 1..];
    match ReadItem(shapes[|done|], data, offset)
    case Err(e) =>
    case Ok((item, next)) =>
      match ReadItems(shapes[|done| + 1..], data, next)
      case Err(e) =>
      case Ok((items, last)) =>
        assert done + ([item] + items) == (done + [item]) + items;
  }

  /////////////////////////////////////////////////////////////////////////////
  // The serialized assets

  datatype TextureAsset = TextureAsset(
    textureHandle: u32, width: i32, height: i32, channels: i32, wrapMode: i32, generateMipMaps: bool)

  datatype AudioAsset = AudioAsset(
    bufferHandle: u32, channels: i32, sampleRate: i32, sizeBytes: i32, bitDepth: i32)

  const GLYPH_CAPACITY: nat := 128

  /** The glyphs of a font: a `FixedList<Glyph, 128>`. */
  type GlyphList = s: seq<Glyph> | |s| <= 128

  datatype FontAsset = FontAsset(
    textureHandle: u32, width: i32, height: i32, fontSize: i32, glyphs: GlyphList)

  /** The fields SerializeAsset visits, in order, and their types. */
  const TEXTURE_SHAPES: seq<Shape> :=
    [ScalarShape(I32Kind), ScalarShape(I32Kind), ScalarShape(I32Kind), ScalarShape(I32Kind), ScalarShape(BoolKind)]

  const AUDIO_SHAPES: seq<Shape> :=
    [ScalarShape(I32Kind), ScalarShape(I32Kind), ScalarShape(I32Kind), ScalarShape(I32Kind)]

  const FONT_SHAPES: seq<Shape> :=
    [ScalarShape(I32Kind), FixedListShape(GlyphKind, GLYPH_CAPACITY)]

  // The content of a variable read back as the field's type. Reads only ever
  // produce items of the right type (ReadItemsConform); the defaults are never
  // taken for them.

  function AsI32(item: Item): i32 {
    if item.Scalar? && item.value.I32Value? then item.value.i else 0
  }

  function AsBool(item: Item): bool {
    item.Scalar? && item.value.BoolValue? && item.value.b
  }

  function GlyphValues(gs: GlyphList): (r: Elems)
    ensures |r| == |gs| && AllOfKind(r, GlyphKind)
    ensures forall i :: 0 <= i < |gs| ==> r[i] == GlyphValue(gs[i])
  {
    seq(|gs|, i requires 0 <= i < |gs| => GlyphValue(gs[i]))
  }

  function AsGlyphs(item: Item): (r: GlyphList)
    ensures item.Elements? && |item.elems| <= GLYPH_CAPACITY && AllOfKind(item.elems, GlyphKind) ==>
      GlyphValues(r) == item.elems
  {
    if item.Elements? && |item.elems| <= GLYPH_CAPACITY then
      seq(|item.elems|, i requires 0 <= i < |item.elems| =>
        if item.elems[i].GlyphValue? then item.elems[i].g else Glyph(0, 0, 0, 0, 0, 0, 0, 0, 0))
    else []
  }

  function TextureItems(t: TextureAsset): seq<Item> {
    [Scalar(I32Value(t.width)), Scalar(I32Value(t.height)), Scalar(I32Value(t.channels)),
     Scalar(I32Value(t.wrapMode)), Scalar(BoolValue(t.generateMipMaps))]
  }

  /** `into` with the visited fields replaced by what was read. */
  function TextureWithItems(into: TextureAsset, items: seq<Item>): TextureAsset
    requires |items| == |TEXTURE_SHAPES|
  {
    into.(width := AsI32(items[0]), height := AsI32(items[1]), channels := AsI32(items[2]),
          wrapMode := AsI32(items[3]), generateMipMaps := AsBool(items[4]))
  }

  function AudioItems(a: AudioAsset): seq<Item> {
    [Scalar(I32Value(a.channels)), Scalar(I32Value(a.sampleRate)), Scalar(I32Value(a.sizeBytes)),
     Scalar(I32Value(a.bitDepth))]
  }

  function AudioWithItems(into: AudioAsset, items: seq<Item>): AudioAsset
    requires |items| == |AUDIO_SHAPES|
  {
    into.(channels := AsI32(items[0]), sampleRate := AsI32(items[1]), sizeBytes := AsI32(items[2]),
          bitDepth := AsI32(items[3]))
  }

  function FontItems(f: FontAsset): seq<Item> {
    [Scalar(I32Value(f.fontSize)), Elements(GlyphValues(f.glyphs))]
  }

  function FontWithItems(into: FontAsset, items: seq<Item>): FontAsset
    requires |items| == |FONT_SHAPES|
  {
    into.(fontSize := AsI32(items[0]), glyphs := AsGlyphs(items[1]))
  }

  /** Taking the visited fields from a texture's own variables changes nothing. */
  lemma {:induction false} TextureItemsBack(t: TextureAsset)
    ensures TextureWithItems(t, TextureItems(t)) == t
  {
  }

  lemma {:induction false} AudioItemsBack(a: AudioAsset)
    ensures AudioWithItems(a, AudioItems(a)) == a
  {
  }

  lemma {:induction false} FontItemsBack(f: FontAsset)
    ensures FontWithItems(f, FontItems(f)) == f
  {
    GlyphsRoundTrip(f.glyphs);
  }

  lemma {:induction false} TextureItemsConform(t: TextureAsset)
    ensures ConformsAll(TextureItems(t), TEXTURE_SHAPES)
  {
    ConformsAllPointwise(TextureItems(t), TEXTURE_SHAPES);
  }

  lemma {:induction false} AudioItemsConform(a: AudioAsset)
    ensures ConformsAll(AudioItems(a), AUDIO_SHAPES)
  {
    ConformsAllPointwise(AudioItems(a), AUDIO_SHAPES);
  }

  lemma {:induction false} FontItemsConform(f: FontAsset)
    ensures ConformsAll(FontItems(f), FONT_SHAPES)
  {
    ConformsAllPointwise(FontItems(f), FONT_SHAPES);
  }

  /** SerializeAsset of a texture while loading: the visited fields of `into`
      read from `offset`, and the offset after them. */
  function ReadTexture(into: TextureAsset, data: seq<byte>, offset: nat): Result<(TextureAsset, nat), SerializeError> {
    match ReadItems(TEXTURE_SHAPES, data, offset)
    case Ok((items, next)) => Ok((TextureWithItems(into, items), next))
    case Err(e) => Err(e)
  }

  function ReadAudio(into: AudioAsset, data: seq<byte>, offset: nat): Result<(AudioAsset, nat), SerializeError> {
    match ReadItems(AUDIO_SHAPES, data, offset)
    case Ok((items, next)) => Ok((AudioWithItems(into, items), next))
    case Err(e) => Err(e)
  }

  function ReadFont(into: FontAsset, data: seq<byte>, offset: nat): Result<(FontAsset, nat), SerializeError> {
    match ReadItems(FONT_SHAPES, data, offset)
    case Ok((items, next)) => Ok((FontWithItems(into, items), next))
    case Err(e) => Err(e)
  }

  /** Writing a texture and reading the bytes back into any texture copies over
      exactly the visited fields; the handle stays that of the target, and the
      whole buffer is consumed. */
  lemma {:induction false} TextureRoundTrip(t: TextureAsset, into: TextureAsset)
    ensures ReadTexture(into, EncodeItems(TextureItems(t)), 0)
      == Ok((t.(textureHandle := into.textureHandle), |EncodeItems(TextureItems(t))|))
  {
    var items := TextureItems(t);
    TextureItemsConform(t);
    RoundTripFromStart(items, TEXTURE_SHAPES);
  }

  lemma {:induction false} AudioRoundTrip(a: AudioAsset, into: AudioAsset)
    ensures ReadAudio(into, EncodeItems(AudioItems(a)), 0)
      == Ok((a.(bufferHandle := into.bufferHandle), |EncodeItems(AudioItems(a))|))
  {
    var items := AudioItems(a);
    AudioItemsConform(a);
    RoundTripFromStart(items, AUDIO_SHAPES);
  }

  /** The glyph list goes through the list encoding unchanged. */
  lemma {:induction false} GlyphsRoundTrip(gs: GlyphList)
    ensures AsGlyphs(Elements(GlyphValues(gs))) == gs
  {
    var r := AsGlyphs(Elements(GlyphValues(gs)));
    assert forall i :: 0 <= i < |r| ==> GlyphValue(r[i]) == GlyphValue(gs[i]);
  }

  /** A font's size and glyph list survive the round trip; its texture handle
      and dimensions are not written and stay those of the target. */
  lemma {:induction false} FontRoundTrip(f: FontAsset, into: FontAsset)
    ensures ReadFont(into, EncodeItems(FontItems(f)), 0)
      == Ok((f.(textureHandle := into.textureHandle, width := into.width, height := into.height),
             |EncodeItems(FontItems(f))|))
  {
    var items := FontItems(f);
    FontItemsConform(f);
    RoundTripFromStart(items, FONT_SHAPES);
    GlyphsRoundTrip(f.glyphs);
  }

  /** A font read from any bytes holds exactly the glyphs decoded from them: a
      count above the capacity is an error, never a truncation. */
  lemma {:induction false} ReadFontGlyphs(into: FontAsset, data: seq<byte>, offset: nat)
    ensures ReadFont(into, data, offset).Ok? ==>
      var items := ReadItems(FONT_SHAPES, data, offset).value.0;
      items[1].Elements? && GlyphValues(ReadFont(into, data, offset).value.0.glyphs) == items[1].elems
  {
    ReadItemsConform(FONT_SHAPES, data, offset);
  }

  /////////////////////////////////////////////////////////////////////////////
  // A run of Serialize calls

  /** Loading: the run from `start` over `shapes` has read `done` and the rest
      of it reads on from `offset`. */
  predicate LoadedSoFar(shapes: seq<Shape>, data: seq<byte>, start: nat, done: seq<Item>, offset: nat)
    requires |done| <= |shapes|
  {
    ReadItems(shapes, data, start) == Then(done, ReadItems(shapes[|done|..], data, offset))
  }

  /** Saving: the buffer is `saved` followed by the bytes of the first
      `|done|` variables of `current`, which is what `done` holds. */
  predicate SavedSoFar(current: seq<Item>, done: seq<Item>, saved: seq<byte>, stored: seq<byte>) {
    |done| <= |current| && done == current[..|done|] && stored == saved + EncodeItems(done)
  }

  lemma {:induction false} LoadedNothing(shapes: seq<Shape>, data: seq<byte>, start: nat)
    ensures LoadedSoFar(shapes, data, start, [], start)
  {
    assert shapes[0..] == shapes;
    var r := ReadItems(shapes, data, start);
    if r.Ok? {
      assert [] + r.value.0 == r.value.0;
    }
  }

  lemma {:induction false} SavedNothing(current: seq<Item>, saved: seq<byte>)
    ensures SavedSoFar(current, [], saved, saved)
  {
    assert saved + EncodeItems([]) == saved;
  }

  /** All variables through: the run read exactly `done`. */
  lemma {:induction false} LoadedAll(shapes: seq<Shape>, data: seq<byte>, start: nat, done: seq<Item>, offset: nat)
    requires |done| == |shapes| && LoadedSoFar(shapes, data, start, done, offset)
    ensures ReadItems(shapes, data, start) == Ok((done, offset))
  {
    assert shapes[|done|..] == [];
    assert done + [] == done;
  }

  /** A variable read where the run has got to: the run has read one more. */
  lemma {:induction false} LoadStep(shapes: seq<Shape>, data: seq<byte>, start: nat, done: seq<Item>,
                                    offset: nat, item: Item, next: nat)
    requires |done| < |shapes| && LoadedSoFar(shapes, data, start, done, offset)
    requires ReadItem(shapes[|done|], data, offset) == Ok((item, next))
    ensures LoadedSoFar(shapes, data, start, done + [item], next)
  {
    ReadItemsNext(shapes, data, done, offset);
    assert |done + [item]| == |done| + 1;
  }

  /** A read that fails where the run has got to fails the whole run. */
  lemma {:induction false} LoadStepFails(shapes: seq<Shape>, data: seq<byte>, start: nat, done: seq<Item>,
                                         offset: nat, e: SerializeError)
    requires |done| < |shapes| && LoadedSoFar(shapes, data, start, done, offset)
    requires ReadItem(shapes[|done|], data, offset) == Err(e)
    ensures ReadItems(shapes, data, start) == Err(e)
  {
    ReadItemsNext(shapes, data, done, offset);
  }

  /** Writing the next variable of `current` keeps the buffer its prefix's bytes. */
  lemma {:induction false} SaveStep(current: seq<Item>, done: seq<Item>, saved: seq<byte>,
                                    before: seq<byte>, after: seq<byte>)
    requires |done| < |current| && SavedSoFar(current, done, saved, before)
    requires after == before + EncodeItem(current[|done|])
    ensures SavedSoFar(current, done + [current[|done|]], saved, after)
  {
    var item := current[|done|];
    SavedBytesStep(saved, done, item, before, after);
    SavedPrefixStep(current, done);
  }

  lemma {:induction false} SavedBytesStep(saved: seq<byte>, done: seq<Item>, item: Item, before: seq<byte>, after: seq<byte>)
    requires before == saved + EncodeItems(done) && after == before + EncodeItem(item)
    ensures after == saved + EncodeItems(done + [item])
  {
    EncodeItemsAppend(done, item);
    AppendAssociative(saved, EncodeItems(done), EncodeItem(item));
  }

  lemma {:induction false} SavedPrefixStep(current: seq<Item>, done: seq<Item>)
    requires |done| < |current| && done == current[..|done|]
    ensures done + [current[|done|]] == current[..|done + [current[|done|]]|]
  {
    assert current[..|done| + 1] == current[..|done|] + [current[|done|]];
  }

  lemma {:induction false} AppendAssociative(a: seq<byte>, b: seq<byte>, c: seq<byte>)
    ensures (a + b) + c == a + (b + c)
  {
  }

  /////////////////////////////////////////////////////////////////////////////
  // The buffer object

  /** How a read left the cursor: on success it moved to the end of what was
      read, and the result is what the specification function read. */
  ghost predicate ReadAs<T>(expected: Result<(T, nat), SerializeError>, r: Result<T, SerializeError>, offset: nat) {
    match expected
    case Ok((v, next)) => r == Ok(v) && offset == next
    case Err(e) => r == Err(e)
  }

  class PackedAssetFile {
    var isLoading: bool
    var currentOffset: nat
    var storedData: seq<byte>

    constructor()
      ensures !isLoading && currentOffset == 0 && storedData == []
    {
      isLoading := false;
      currentOffset := 0;
      storedData := [];
    }

    /** PutData: appends the bytes; the cursor does not move. */
    method PutData(data: seq<byte>)
      modifies this
      ensures storedData == old(storedData) + data
      ensures currentOffset == old(currentOffset) && isLoading == old(isLoading)
    {
      storedData := storedData + data;
    }

    /** GetData: `size` bytes at the cursor, if that many are left. */
    method GetData(size: nat) returns (r: Result<seq<byte>, SerializeError>)
      modifies this
      ensures storedData == old(storedData) && isLoading == old(isLoading)
      ensures ReadAs(ReadBytes(storedData, old(currentOffset), size), r, currentOffset)
    {
      if currentOffset + size > |storedData| {
        return Err(OutOfData);
      }
      r := Ok(storedData[currentOffset..currentOffset + size]);
      currentOffset := currentOffset + size;
    }

    /** Put for a plain value: grows the buffer by exactly `sizeof(T)` bytes,
        leaving the earlier bytes and the cursor alone. */
    method Put(v: Value)
      modifies this
      ensures storedData == old(storedData) + Encode(v)
      ensures |storedData| == |old(storedData)| + SizeOf(KindOf(v))
      ensures currentOffset == old(currentOffset) && isLoading == old(isLoading)
    {
      storedData := storedData + Encode(v);
    }

    /** Get for a plain value: bound check, copy from the cursor, advance by
        `sizeof(T)`. */
    method Get(k: Kind) returns (r: Result<Value, SerializeError>)
      modifies this
      ensures storedData == old(storedData) && isLoading == old(isLoading)
      ensures ReadAs(ReadValue(k, storedData, old(currentOffset)), r, currentOffset)
    {
      var size := SizeOf(k);
      if currentOffset + size > |storedData| {
        return Err(OutOfData);
      }
      r := Ok(DecodeAt(k, storedData, currentOffset));
      currentOffset := currentOffset + size;
    }

    /** Put for a List or a FixedList: the count, then the raw elements. */
    method PutList(elems: Elems)
      modifies this
      ensures storedData == old(storedData) + EncodeItem(Elements(elems))
      ensures currentOffset == old(currentOffset) && isLoading == old(isLoading)
    {
      Put(I32Value(|elems|));
      PutData(EncodeAll(elems));
      AppendAssociative(old(storedData), Encode(I32Value(|elems|)), EncodeAll(elems));
    }

    /** Get for a List (i32 count) or a FixedList (u32 count, at most its
        capacity); the elements are copied out of the buffer as by GetData. */
    method GetList(shape: Shape) returns (r: Result<Item, SerializeError>)
      requires !shape.ScalarShape?
      modifies this
      ensures storedData == old(storedData) && isLoading == old(isLoading)
      ensures ReadAs(ReadItem(shape, storedData, old(currentOffset)), r, currentOffset)
    {
      var k := shape.kind;
      var num: nat;
      if shape.ListShape? {
        var count := Get(I32Kind);
        if count.Err? {
          return Err(count.error);
        }
        if count.value.i < 0 {
          return Err(NegativeCount);
        }
        num := count.value.i;
      } else {
        var count := Get(U32Kind);
        if count.Err? {
          return Err(count.error);
        }
        if count.value.u > shape.capacity {
          return Err(CountOverCapacity);
        }
        num := count.value.u;
      }
      var size := SizeOfMany(k, num);
      if currentOffset + size > |storedData| {
        return Err(OutOfData);
      }
      r := Ok(Elements(DecodeAllAt(k, storedData, currentOffset, num)));
      currentOffset := currentOffset + size;
    }

    /** Serialize: read into the variable when loading, write it otherwise. The
        result is the variable's content afterwards. */
    method Serialize(shape: Shape, current: Item) returns (r: Result<Item, SerializeError>)
      requires Conforms(current, shape)
      modifies this
      ensures isLoading == old(isLoading)
      ensures old(isLoading) ==>
        storedData == old(storedData) && ReadAs(ReadItem(shape, storedData, old(currentOffset)), r, currentOffset)
      ensures !old(isLoading) ==>
        storedData == old(storedData) + EncodeItem(current) && currentOffset == old(currentOffset) && r == Ok(current)
    {
      if isLoading {
        if shape.ScalarShape? {
          var v := Get(shape.kind);
          if v.Err? {
            return Err(v.error);
          }
          r := Ok(Scalar(v.value));
        } else {
          r := GetList(shape);
        }
      } else {
        if shape.ScalarShape? {
          Put(current.value);
        } else {
          PutList(current.elems);
        }
        r := Ok(current);
      }
    }

    /** What a run of Serialize calls over the variables `shapes` has done once
        the variables `done` are through: when loading, the reads still to come
        decide the outcome of the whole run from `start`; when saving, the
        buffer holds `saved` followed by the bytes of `done`. */
    ghost predicate SerializedSoFar(shapes: seq<Shape>, current: seq<Item>, done: seq<Item>,
                                    saved: seq<byte>, start: nat)
      reads this
    {
      |done| <= |shapes| && |current| == |shapes|
      && (isLoading ==> storedData == saved && LoadedSoFar(shapes, saved, start, done, currentOffset))
      && (!isLoading ==> SavedSoFar(current, done, saved, storedData) && currentOffset == start)
    }

    /** Before the first call nothing is through. */
    lemma StartSerializing(shapes: seq<Shape>, current: seq<Item>)
      requires |current| == |shapes|
      ensures SerializedSoFar(shapes, current, [], storedData, currentOffset)
    {
      LoadedNothing(shapes, storedData, currentOffset);
      SavedNothing(current, storedData);
    }

    /** After the last call: when loading, the whole run read `done` and left
        the cursor where it is; when saving, `current` was written as is. */
    lemma FinishSerializing(shapes: seq<Shape>, current: seq<Item>, done: seq<Item>, saved: seq<byte>, start: nat)
      requires SerializedSoFar(shapes, current, done, saved, start) && |done| == |shapes|
      ensures isLoading ==> storedData == saved && ReadItems(shapes, saved, start) == Ok((done, currentOffset))
      ensures !isLoading ==> done == current && storedData == saved + EncodeItems(current) && currentOffset == start
    {
      if isLoading {
        LoadedAll(shapes, saved, start, done, currentOffset);
      } else {
        assert current[..|done|] == current;
      }
    }

    /** The next Serialize call of a SerializeAsset body. */
    method SerializeNext(shapes: seq<Shape>, current: seq<Item>, done: seq<Item>,
                         ghost saved: seq<byte>, ghost start: nat)
      returns (r: Result<Item, SerializeError>)
      requires |done| < |shapes| && ConformsAll(current, shapes)
      requires SerializedSoFar(shapes, current, done, saved, start)
      modifies this
      ensures isLoading == old(isLoading)
      ensures r.Ok? ==> SerializedSoFar(shapes, current, done + [r.value], saved, start)
      ensures r.Err? ==> isLoading && storedData == saved && ReadItems(shapes, saved, start) == Err(r.error)
      ensures !isLoading ==> r == Ok(current[|done|])
    {
      ghost var offset := currentOffset;
      ConformsAt(current, shapes, |done|);
      r := Serialize(shapes[|done|], current[|done|]);
      if isLoading {
        match ReadItem(shapes[|done|], saved, offset)
        case Ok((item, next)) =>
          LoadStep(shapes, saved, start, done, offset, item, next);
        case Err(e) =>
          LoadStepFails(shapes, saved, start, done, offset, e);
      } else {
        SaveStep(current, done, saved, old(storedData), storedData);
      }
    }

    /** SerializeAsset for a texture: width, height, channels, wrap mode and
        the mipmap flag, in that order. */
    method SerializeTexture(t: TextureAsset) returns (r: Result<TextureAsset, SerializeError>)
      modifies this
      ensures isLoading == old(isLoading)
      ensures old(isLoading) ==>
        storedData == old(storedData) && ReadAs(ReadTexture(t, storedData, old(currentOffset)), r, currentOffset)
      ensures !old(isLoading) ==>
        storedData == old(storedData) + EncodeItems(TextureItems(t)) && currentOffset == old(currentOffset)
        && r == Ok(t)
    {
      var items := TextureItems(t);
      TextureItemsConform(t);
      ghost var saved, start := storedData, currentOffset;
      StartSerializing(TEXTURE_SHAPES, items);
      var done: seq<Item> := [];
      var width := SerializeNext(TEXTURE_SHAPES, items, done, saved, start);
      if width.Err? { return Err(width.error); }
      done := done + [width.value];
      var height := SerializeNext(TEXTURE_SHAPES, items, done, saved, start);
      if height.Err? { return Err(height.error); }
      done := done + [height.value];
      var channels := SerializeNext(TEXTURE_SHAPES, items, done, saved, start);
      if channels.Err? { return Err(channels.error); }
      done := done + [channels.value];
      var wrapMode := SerializeNext(TEXTURE_SHAPES, items, done, saved, start);
      if wrapMode.Err? { return Err(wrapMode.error); }
      done := done + [wrapMode.value];
      var mipMaps := SerializeNext(TEXTURE_SHAPES, items, done, saved, start);
      if mipMaps.Err? { return Err(mipMaps.error); }
      done := done + [mipMaps.value];
      FinishSerializing(TEXTURE_SHAPES, items, done, saved, start);
      TextureItemsBack(t);
      r := Ok(TextureWithItems(t, done));
    }

    /** SerializeAsset for an audio clip: channels, sample rate, size and bit
        depth. The buffer handle is not serialized. */
    method SerializeAudio(a: AudioAsset) returns (r: Result<AudioAsset, SerializeError>)
      modifies this
      ensures isLoading == old(isLoading)
      ensures old(isLoading) ==>
        storedData == old(storedData) && ReadAs(ReadAudio(a, storedData, old(currentOffset)), r, currentOffset)
      ensures !old(isLoading) ==>
        storedData == old(storedData) + EncodeItems(AudioItems(a)) && currentOffset == old(currentOffset)
        && r == Ok(a)
    {
      var items := AudioItems(a);
      AudioItemsConform(a);
      ghost var saved, start := storedData, currentOffset;
      StartSerializing(AUDIO_SHAPES, items);
      var done: seq<Item> := [];
      var channels := SerializeNext(AUDIO_SHAPES, items, done, saved, start);
      if channels.Err? { return Err(channels.error); }
      done := done + [channels.value];
      var sampleRate := SerializeNext(AUDIO_SHAPES, items, done, saved, start);
      if sampleRate.Err? { return Err(sampleRate.error); }
      done := done + [sampleRate.value];
      var sizeBytes := SerializeNext(AUDIO_SHAPES, items, done, saved, start);
      if sizeBytes.Err? { return Err(sizeBytes.error); }
      done := done + [sizeBytes.value];
      var bitDepth := SerializeNext(AUDIO_SHAPES, items, done, saved, start);
      if bitDepth.Err? { return Err(bitDepth.error); }
      done := done + [bitDepth.value];
      FinishSerializing(AUDIO_SHAPES, items, done, saved, start);
      AudioItemsBack(a);
      r := Ok(AudioWithItems(a, done));
    }

    /** SerializeAsset for a font: the font size, then the glyph list. The
        font's texture is not serialized. */
    method SerializeFont(f: FontAsset) returns (r: Result<FontAsset, SerializeError>)
      modifies this
      ensures isLoading == old(isLoading)
      ensures old(isLoading) ==>
        storedData == old(storedData) && ReadAs(ReadFont(f, storedData, old(currentOffset)), r, currentOffset)
      ensures !old(isLoading) ==>
        storedData == old(storedData) + EncodeItems(FontItems(f)) && currentOffset == old(currentOffset)
        && r == Ok(f)
    {
      var items := FontItems(f);
      FontItemsConform(f);
      ghost var saved, start := storedData, currentOffset;
      StartSerializing(FONT_SHAPES, items);
      var done: seq<Item> := [];
      var fontSize := SerializeNext(FONT_SHAPES, items, done, saved, start);
      if fontSize.Err? { return Err(fontSize.error); }
      done := done + [fontSize.value];
      var glyphs := SerializeNext(FONT_SHAPES, items, done, saved, start);
      if glyphs.Err? { return Err(glyphs.error); }
      done := done + [glyphs.value];
      FinishSerializing(FONT_SHAPES, items, done, saved, start);
      FontItemsBack(f);
      r := Ok(FontWithItems(f, done));
    }

    /** Reset: rewinds the cursor. */
    method Reset()
      modifies this
      ensures currentOffset == 0
      ensures storedData == old(storedData) && isLoading == old(isLoading)
    {
      currentOffset := 0;
    }

    /** Finished: drops the buffer's bytes. */
    method Finished()
      modifies this
      ensures storedData == []
      ensures currentOffset == old(currentOffset) && isLoading == old(isLoading)
    {
      storedData := [];
    }
  }
}
