/**
 * The texture helpers of texture_d3d11.cpp: filling a pixel buffer with one
 * colour, and the fixed table of shader resource views with its release.
 */
module TextureD3D11 {
  import opened Wrappers
  import opened Words

  /** Number of slots in the texture table. */
  const MaxTextures := 512

  /** A non-null shader resource view pointer; a null slot is `None`. */
  type TextureHandle = nat

  /** The store through an `unsigned int *` at byte `offset`: the word's four bytes, lowest first. */
  method StoreWord(buffer: array<Byte>, offset: nat, w: Word)
    requires offset + 4 <= buffer.Length
    modifies buffer
    ensures buffer[..] == old(buffer[..offset]) + WordBytes(w) + old(buffer[offset + 4..])
  {
    var bs := WordBytes(w);
    buffer[offset] := bs[0];
    buffer[offset + 1] := bs[1];
    buffer[offset + 2] := bs[2];
    buffer[offset + 3] := bs[3];
    assert buffer[..] == old(buffer[..offset]) + bs + old(buffer[offset + 4..]);
  }

  /** After a store at `offset`, the bytes up to its end are the old prefix and the stored ones. */
  lemma StoredPrefix(before: seq<Byte>, after: seq<Byte>, offset: nat, bs: seq<Byte>)
    requires offset + |bs| <= |before|
    requires after == before[..offset] + bs + before[offset + |bs|..]
    ensures after[..offset + |bs|] == before[..offset] + bs
  {
    assert after[..offset + |bs|] == (before[..offset] + bs + before[offset + |bs|..])[..offset + |bs|];
  }

  /**
   * `createRGBATexData`: a fresh buffer of `width * height` pixels, each
   * holding `rgbaColor` as the host stores an `unsigned int`.
   */
  method CreateRgbaTexData(width: nat, height: nat, rgbaColor: Word) returns (rgbaData: array<Byte>)
    ensures fresh(rgbaData)
    ensures rgbaData[..] == Repeat(WordBytes(rgbaColor), width * height)
  {
    var pixels := width * height;
    rgbaData := new Byte[pixels * 4];
    ghost var colorBytes := WordBytes(rgbaColor);
    var i := 0;
    while i < pixels
      invariant 0 <= i <= pixels
      invariant rgbaData.Length == 4 * pixels
      invariant rgbaData[..4 * i] == Repeat(colorBytes, i)
    {
      var offset := i * 4;
      ghost var before := rgbaData[..];
      StoreWord(rgbaData, offset, rgbaColor);
      StoredPrefix(before, rgbaData[..], offset, colorBytes);
      assert before[..offset] == rgbaData[..4 * i];
      i := i + 1;
    }
    assert rgbaData[..] == rgbaData[..4 * pixels];
  }

  /** The buffer `createRGBATexData` fills has four bytes per pixel, and pixel `i` is the colour. */
  lemma RgbaTexDataPixel(width: nat, height: nat, rgbaColor: Word, i: nat)
    requires i < width * height
    ensures |Repeat(WordBytes(rgbaColor), width * height)| == width * height * 4
    ensures Repeat(WordBytes(rgbaColor), width * height)[4 * i .. 4 * i + 4] == WordBytes(rgbaColor)
  {
    RepeatSlot(WordBytes(rgbaColor), width * height, i);
  }

  /** The first slot holding `x`, if any. */
  function FirstIndexOf(s: seq<Option<TextureHandle>>, x: Option<TextureHandle>): (r: Option<nat>)
    ensures r.Some? ==> r.value < |s| && s[r.value] == x
                        && forall j :: 0 <= j < r.value ==> s[j] != x
    ensures r.None? ==> forall j :: 0 <= j < |s| ==> s[j] != x
  {
    if s == [] then None
    else if s[0] == x then Some(0)
    else match FirstIndexOf(s[1..], x)
      case None => None
      case Some(k) => Some(k + 1)
  }

  /** The table after releasing `tex`: its first slot holding `tex`, if any, set to null. */
  function ReleasedTable(s: seq<Option<TextureHandle>>, tex: TextureHandle): seq<Option<TextureHandle>>
  {
    match FirstIndexOf(s, Some(tex))
    case None => s
    case Some(k) => s[k := None]
  }

  /**
   * Releasing changes at most one slot, the first that held `tex`, to null;
   * when no slot holds it the table is unchanged.
   */
  lemma ReleasedTableChanges(s: seq<Option<TextureHandle>>, tex: TextureHandle)
    ensures |ReleasedTable(s, tex)| == |s|
    ensures forall i, j :: 0 <= i < j < |s| && ReleasedTable(s, tex)[i] != s[i] ==> ReleasedTable(s, tex)[j] == s[j]
    ensures forall i :: 0 <= i < |s| && ReleasedTable(s, tex)[i] != s[i] ==>
              (s[i] == Some(tex) && ReleasedTable(s, tex)[i] == None
               && forall j :: 0 <= j < i ==> s[j] != Some(tex))
    ensures Some(tex) in s ==> ReleasedTable(s, tex) != s
    ensures Some(tex) !in s ==> ReleasedTable(s, tex) == s
  {
  }

  /** Releasing removes exactly one occurrence of `tex` when there is one. */
  lemma ReleasedTableCount(s: seq<Option<TextureHandle>>, tex: TextureHandle)
    ensures multiset(ReleasedTable(s, tex))[Some(tex)]
         == if Some(tex) in s then multiset(s)[Some(tex)] - 1 else multiset(s)[Some(tex)]
  {
  }

  /** The table of textures, `all_textures`. */
  class TextureTable {
    const allTextures: array<Option<TextureHandle>>

    ghost predicate Valid()
      reads this
    {
      allTextures.Length == MaxTextures
    }

    /** The zero-initialised table. */
    constructor ()
      ensures Valid() && fresh(allTextures)
      ensures forall i :: 0 <= i < MaxTextures ==> allTextures[i] == None
    {
      allTextures := new Option<TextureHandle>[MaxTextures](_ => None);
    }

    /**
     * `releaseTexture`: scans the table and nulls the first slot holding
     * `tex`, then stops; always reports success.
     */
    method ReleaseTexture(tex: TextureHandle) returns (ok: bool)
      requires Valid()
      modifies allTextures
      ensures ok
      ensures allTextures[..] == ReleasedTable(old(allTextures[..]), tex)
    {
      ghost var before := allTextures[..];
      var i := 0;
      while i < MaxTextures
        invariant 0 <= i <= MaxTextures + 1
        invariant i <= MaxTextures ==>
                    (allTextures[..] == before && forall j :: 0 <= j < i ==> before[j] != Some(tex))
        invariant i == MaxTextures + 1 ==> allTextures[..] == ReleasedTable(before, tex)
      {
        if allTextures[i] == Some(tex) {
          allTextures[i] := None;
          assert FirstIndexOf(before, Some(tex)) == Some(i);
          i := MaxTextures;
        }
        i := i + 1;
      }
      assert i == MaxTextures ==> FirstIndexOf(before, Some(tex)) == None;
      return true;
    }
  }
}
