/** `EncodedIntegerBlock` (src/compression/compress.rs): a u32 list stored raw,
    delta-coded or VByte-coded, together with its element count. */
module IntegerBlock {
  import opened Base
  import VByte
  import Delta

  /** `IntegerEncodingType`: `None` (four little-endian bytes per value), `Delta`, `VByte`. */
  datatype IntegerEncodingType = NoneEncoding | DeltaEncoding | VByteEncoding

  datatype EncodedIntegerBlock = EncodedIntegerBlock(
    data: seq<Byte>,
    originalCount: nat,
    encoding: IntegerEncodingType)

  // ---------------------------------------------------------------------
  // Raw (`None`) format
  // ---------------------------------------------------------------------

  /** Each value as its four little-endian bytes, back to back. */
  function RawEncoded(nums: seq<U32>): seq<Byte>
  {
    if nums == [] then [] else LeBytes(nums[0]) + RawEncoded(nums[1..])
  }

  /** `chunks_exact(4)` read as little-endian u32s; a trailing partial chunk is dropped. */
  function RawDecoded(data: seq<Byte>): seq<U32>
    decreases |data|
  {
    if |data| < 4 then [] else [FromLeBytes(data[..4])] + RawDecoded(data[4..])
  }

  lemma {:induction false} RawEncodedLength(nums: seq<U32>)
    ensures |RawEncoded(nums)| == 4 * |nums|
    decreases |nums|
  {
    if nums != [] {
      RawEncodedLength(nums[1..]);
    }
  }

  lemma {:induction false} RawRoundTrip(nums: seq<U32>)
    ensures RawDecoded(RawEncoded(nums)) == nums
    decreases |nums|
  {
    if nums != [] {
      var data := RawEncoded(nums);
      assert data[..4] == LeBytes(nums[0]);
      LeBytesRoundTrip(nums[0], data[..4]);
      assert data[4..] == RawEncoded(nums[1..]);
      RawRoundTrip(nums[1..]);
      assert [nums[0]] + nums[1..] == nums;
    }
  }

  /** Decoding reads `|data| / 4` values and ignores the last `|data| % 4` bytes. */
  lemma {:induction false} RawDecodedIgnoresPartialChunk(data: seq<Byte>)
    ensures |RawDecoded(data)| == |data| / 4
    ensures RawDecoded(data) == RawDecoded(data[..|data| - |data| % 4])
    decreases |data|
  {
    if |data| >= 4 {
      var cut := |data| - |data| % 4;
      RawDecodedIgnoresPartialChunk(data[4..]);
      assert |data[4..]| % 4 == |data| % 4;
      assert data[4..][..|data[4..]| - |data[4..]| % 4] == data[..cut][4..];
      assert data[..cut][..4] == data[..4];
    } else {
      assert data[..|data| - |data| % 4] == [];
    }
  }

  // ---------------------------------------------------------------------
  // Block
  // ---------------------------------------------------------------------

  /** The bytes `encode` stores for `nums` under `encoding`. */
  function EncodedBytes(nums: seq<U32>, encoding: IntegerEncodingType): seq<Byte>
  {
    match encoding
    case NoneEncoding => RawEncoded(nums)
    case DeltaEncoding => Delta.DeltaEncoded(nums)
    case VByteEncoding => VByte.EncodedList(nums)
  }

  /** `EncodedIntegerBlock::decode`: dispatches on the block's encoding. */
  function Decode(block: EncodedIntegerBlock): (r: Result<seq<U32>>)
    ensures block.encoding == NoneEncoding ==> r.Ok? && |r.value| == |block.data| / 4
    ensures block.encoding == DeltaEncoding && |block.data| < 4 ==> r == Ok([])
  {
    match block.encoding
    case NoneEncoding =>
      RawDecodedIgnoresPartialChunk(block.data);
      Ok(RawDecoded(block.data))
    case DeltaEncoding => Delta.DeltaDecoded(block.data)
    case VByteEncoding => VByte.DecodedList(block.data)
  }

  /** Every encoding decodes back to the list it was given. */
  lemma DecodeEncoded(nums: seq<U32>, encoding: IntegerEncodingType)
    ensures Decode(EncodedIntegerBlock(EncodedBytes(nums, encoding), |nums|, encoding)) == Ok(nums)
  {
    match encoding
    case NoneEncoding => RawRoundTrip(nums);
    case DeltaEncoding => Delta.DeltaRoundTrip(nums);
    case VByteEncoding => VByte.DecodeEncodedList(nums);
  }

  /** `EncodedIntegerBlock::encode`; it never fails. */
  method Encode(nums: seq<U32>, encoding: IntegerEncodingType) returns (r: Result<EncodedIntegerBlock>)
    ensures r.Ok?
    ensures r.value.data == EncodedBytes(nums, encoding)
    ensures r.value.originalCount == |nums| && r.value.encoding == encoding
    ensures encoding == NoneEncoding ==> |r.value.data| == 4 * |nums|
    ensures Decode(r.value) == Ok(nums)
  {
    var bytes: seq<Byte>;
    match encoding {
      case NoneEncoding =>
        bytes := [];
        assert nums[0..] == nums;
        for i := 0 to |nums|
          invariant bytes + RawEncoded(nums[i..]) == RawEncoded(nums)
        {
          assert nums[i..][1..] == nums[i + 1..];
          assert RawEncoded(nums[i..]) == LeBytes(nums[i]) + RawEncoded(nums[i + 1..]);
          assert bytes + RawEncoded(nums[i..]) == (bytes + LeBytes(nums[i])) + RawEncoded(nums[i + 1..]);
          bytes := bytes + LeBytes(nums[i]);
        }
        assert bytes + RawEncoded(nums[|nums|..]) == bytes + [];
        RawEncodedLength(nums);
      case DeltaEncoding =>
        bytes := Delta.EncodeDeltaList(nums);
      case VByteEncoding =>
        bytes := VByte.EncodeU32List(nums);
    }
    DecodeEncoded(nums, encoding);
    return Ok(EncodedIntegerBlock(bytes, |nums|, encoding));
  }
}
