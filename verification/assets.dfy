/** Asset handles and the small asset look-ups of the engine (AttoAsset.h and
    AttoAsset.cpp): numeric asset ids, typed ids, the registered-sprite search
    and the OpenAL format choice. */
module Assets {
  import opened Wrappers
  import opened AttoMath

  datatype AssetType =
    | ASSET_TYPE_INVALID
    | ASSET_TYPE_TEXTURE
    | ASSET_TYPE_AUDIO
    | ASSET_TYPE_FONT
    | ASSET_TYPE_SPRITE
    | ASSET_TYPE_TILESHEET

  /** An asset id is a 32-bit number (a string hash, or a number given directly);
      zero means "no asset". */
  datatype AssetId = AssetId(id: u32) {
    predicate IsValid() { id != 0 }

    /** `operator ==`: only the numeric ids are compared. */
    predicate Equals(other: AssetId) { id == other.id }
  }

  /** The comparison operator is exactly identity of the handle, and the one
      invalid id is zero. */
  lemma AssetIdEqualsIsIdentity(a: AssetId, b: AssetId)
    ensures a.Equals(b) <==> a == b
    ensures !a.IsValid() <==> a == AssetId(0)
  {
  }

  /** An asset id tagged with the kind of asset it names (a template argument
      in the engine). */
  datatype TypedAssetId = TypedAssetId(kind: AssetType, id: u32) {
    predicate IsValid() { id != 0 }

    function GetValue(): (r: u32)
      ensures r == id
    {
      id
    }

    /** Dropping the tag keeps the number, so validity is kept too. */
    function ToRawId(): (r: AssetId)
      ensures r.id == id
      ensures r.IsValid() <==> IsValid()
    {
      AssetId(id)
    }
  }

  /** The fields of a registered sprite that this model needs. */
  datatype SpriteAsset = SpriteAsset(id: AssetId, uv0: Vec2, uv1: Vec2, frameCount: i32)

  /** The first registered sprite whose id equals `id`, if any. */
  function FindSprite(registered: seq<SpriteAsset>, id: AssetId): Option<nat> {
    if |registered| == 0 then None
    else if registered[0].id.Equals(id) then Some(0)
    else match FindSprite(registered[1..], id)
      case None => None
      case Some(i) => Some(i + 1)
  }

  /** FindSprite gives the index of the first match, and None exactly when no
      registered sprite has the id. */
  lemma {:induction false} FindSpriteFindsFirst(registered: seq<SpriteAsset>, id: AssetId)
    ensures var r := FindSprite(registered, id);
      (r.Some? ==> r.value < |registered| && registered[r.value].id.Equals(id)) &&
      (r.Some? ==> forall j :: 0 <= j < r.value ==> !registered[j].id.Equals(id)) &&
      (r.None? <==> forall j :: 0 <= j < |registered| ==> !registered[j].id.Equals(id))
  {
    if |registered| > 0 && !registered[0].id.Equals(id) {
      FindSpriteFindsFirst(registered[1..], id);
      var tail := registered[1..];
      assert forall j :: 1 <= j < |registered| ==> registered[j] == tail[j - 1];
    }
  }

  /** LeEngine::GetSpriteAsset: a linear scan of the registered sprites; the
      result is the index of the sprite returned (None for a null pointer). */
  method GetSpriteAsset(registered: seq<SpriteAsset>, id: AssetId) returns (r: Option<nat>)
    ensures r == FindSprite(registered, id)
  {
    var i := 0;
    while i < |registered|
      invariant 0 <= i <= |registered|
      invariant forall j :: 0 <= j < i ==> !registered[j].id.Equals(id)
    {
      if registered[i].id.Equals(id) {
        FindSpriteIsFirstMatch(registered, id, i);
        return Some(i);
      }
      i := i + 1;
    }
    FindSpriteFindsFirst(registered, id);
    return None;
  }

  /** Any index that matches and has no match before it is what FindSprite returns. */
  lemma FindSpriteIsFirstMatch(registered: seq<SpriteAsset>, id: AssetId, i: nat)
    requires i < |registered| && registered[i].id.Equals(id)
    requires forall j :: 0 <= j < i ==> !registered[j].id.Equals(id)
    ensures FindSprite(registered, id) == Some(i)
  {
    FindSpriteFindsFirst(registered, id);
  }

  // OpenAL buffer formats (values from the OpenAL 1.1 specification, al.h).
  const AL_FORMAT_MONO8: u32 := 0x1100
  const AL_FORMAT_MONO16: u32 := 0x1101
  const AL_FORMAT_STEREO8: u32 := 0x1102
  const AL_FORMAT_STEREO16: u32 := 0x1103

  /** LeEngine::ALGetFormat: more than one channel is stereo, otherwise mono;
      only 8- and 16-bit samples have a format, anything else gives 0. */
  function ALGetFormat(numChannels: u32, bitDepth: u32): (r: u32)
    ensures r == AL_FORMAT_MONO8 <==> numChannels <= 1 && bitDepth == 8
    ensures r == AL_FORMAT_MONO16 <==> numChannels <= 1 && bitDepth == 16
    ensures r == AL_FORMAT_STEREO8 <==> numChannels > 1 && bitDepth == 8
    ensures r == AL_FORMAT_STEREO16 <==> numChannels > 1 && bitDepth == 16
    ensures r == 0 <==> bitDepth != 8 && bitDepth != 16
  {
    var stereo := numChannels > 1;
    if stereo then
      if bitDepth == 8 then AL_FORMAT_STEREO8
      else if bitDepth == 16 then AL_FORMAT_STEREO16
      else 0
    else
      if bitDepth == 8 then AL_FORMAT_MONO8
      else if bitDepth == 16 then AL_FORMAT_MONO16
      else 0
  }
}
