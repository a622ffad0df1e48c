/** Delta encoding of u32 lists (`DeltaEncoder` in src/compression/delta.rs): the first
    value as four little-endian bytes, then the VByte encoding of each wrapping
    difference from the value before it. */
module Delta {
  import opened Base
  import VByte

  // ---------------------------------------------------------------------
  // Specification
  // ---------------------------------------------------------------------

  /** The wrapping differences between neighbours, in order. */
  function Deltas(nums: seq<U32>): (r: seq<U32>)
    ensures |nums| >= 1 ==> |r| == |nums| - 1
    ensures nums == [] ==> r == []
    decreases |nums|
  {
    if |nums| < 2 then [] else [WrapSub(nums[1], nums[0])] + Deltas(nums[1..])
  }

  /** The values obtained by adding `ds` one after another to `prev`, wrapping. */
  function RunningSums(prev: U32, ds: seq<U32>): (r: seq<U32>)
    ensures |r| == |ds|
    decreases |ds|
  {
    if ds == [] then []
    else
      var next := WrapAdd(prev, ds[0]);
      [next] + RunningSums(next, ds[1..])
  }

  /** The bytes `encode_u32_list` produces. */
  function DeltaEncoded(nums: seq<U32>): seq<Byte>
  {
    if nums == [] then [] else LeBytes(nums[0]) + VByte.EncodedList(Deltas(nums))
  }

  /** The list `decode_u32_list` returns for `data`. */
  function DeltaDecoded(data: seq<Byte>): Result<seq<U32>>
  {
    if |data| < 4 then Ok([])
    else
      var first := FromLeBytes(data[..4]);
      match VByte.DecodedList(data[4..])
      case Err(e) => Err(e)
      case Ok(ds) => Ok([first] + RunningSums(first, ds))
  }

  /** The total length of the VByte encodings of `ds`. */
  function EncodedLengths(ds: seq<U32>): nat
  {
    if ds == [] then 0 else |VByte.Encoded(ds[0])| + EncodedLengths(ds[1..])
  }

  // ---------------------------------------------------------------------
  // Properties
  // ---------------------------------------------------------------------

  /** Re-adding the differences to the first value gives back the rest of the list. */
  lemma {:induction false} RunningSumsOfDeltas(nums: seq<U32>)
    requires nums != []
    ensures RunningSums(nums[0], Deltas(nums)) == nums[1..]
    decreases |nums|
  {
    if |nums| >= 2 {
      WrapAddSub(nums[1], nums[0]);
      RunningSumsOfDeltas(nums[1..]);
      assert nums[1..][1..] == nums[2..];
      assert [nums[1]] + nums[2..] == nums[1..];
    }
  }

  /** `decode_u32_list(encode_u32_list(xs)) == xs` for every list, sorted or not. */
  lemma DeltaRoundTrip(nums: seq<U32>)
    ensures DeltaDecoded(DeltaEncoded(nums)) == Ok(nums)
  {
    if nums != [] {
      var data := DeltaEncoded(nums);
      assert data[..4] == LeBytes(nums[0]);
      LeBytesRoundTrip(nums[0], data[..4]);
      assert data[4..] == VByte.EncodedList(Deltas(nums));
      VByte.DecodeEncodedList(Deltas(nums));
      RunningSumsOfDeltas(nums);
      assert [nums[0]] + nums[1..] == nums;
    }
  }

  lemma {:induction false} EncodedListLength(ds: seq<U32>)
    ensures |VByte.EncodedList(ds)| == EncodedLengths(ds)
    decreases |ds|
  {
    if ds != [] {
      EncodedListLength(ds[1..]);
    }
  }

  /** A non-empty list takes four bytes plus the VByte lengths of its differences; the
      first four bytes hold the first value. */
  lemma DeltaEncodedShape(nums: seq<U32>)
    requires nums != []
    ensures |DeltaEncoded(nums)| == 4 + EncodedLengths(Deltas(nums))
    ensures FromLeBytes(DeltaEncoded(nums)[..4]) == nums[0]
  {
    EncodedListLength(Deltas(nums));
    var data := DeltaEncoded(nums);
    assert data[..4] == LeBytes(nums[0]);
    LeBytesRoundTrip(nums[0], data[..4]);
  }

  /** Input shorter than four bytes decodes to the empty list. */
  lemma ShortInputDecodesEmpty(data: seq<Byte>)
    requires |data| < 4
    ensures DeltaDecoded(data) == Ok([])
  {
  }

  // ---------------------------------------------------------------------
  // The operations as the source runs them
  // ---------------------------------------------------------------------

  /** `DeltaEncoder::encode_u32_list`. */
  method EncodeDeltaList(nums: seq<U32>) returns (out: seq<Byte>)
    ensures out == DeltaEncoded(nums)
    ensures nums == [] ==> out == []
    ensures DeltaDecoded(out) == Ok(nums)
  {
    if nums == [] {
      return [];
    }
    out := LeBytes(nums[0]);
    for i := 1 to |nums|
      invariant out == LeBytes(nums[0]) + VByte.EncodedList(Deltas(nums[..i]))
    {
      var delta := WrapSub(nums[i], nums[i - 1]);
      ghost var done := Deltas(nums[..i]);
      assert nums[..i][i - 1] == nums[i - 1];
      DeltasSnoc(nums[..i], nums[i]);
      assert nums[..i + 1] == nums[..i] + [nums[i]];
      assert Deltas(nums[..i + 1]) == done + [delta];
      VByte.EncodedListAppend(done, delta);
      out := VByte.EncodeU32(out, delta);
      assert out == LeBytes(nums[0]) + (VByte.EncodedList(done) + VByte.Encoded(delta));
    }
    assert nums[..|nums|] == nums;
    DeltaRoundTrip(nums);
  }

  lemma {:induction false} DeltasSnoc(xs: seq<U32>, x: U32)
    requires xs != []
    ensures Deltas(xs + [x]) == Deltas(xs) + [WrapSub(x, xs[|xs| - 1])]
    decreases |xs|
  {
    if |xs| == 1 {
      assert xs + [x] == [xs[0], x];
    } else {
      assert (xs + [x])[1..] == xs[1..] + [x];
      DeltasSnoc(xs[1..], x);
    }
  }

  /** The list for `data` once the prefix already decoded is `nums`, ending in `prev`,
      and the rest decodes to `tail`. */
  function Continue(nums: seq<U32>, prev: U32, tail: Result<seq<U32>>): Result<seq<U32>>
  {
    match tail
    case Err(e) => Err(e)
    case Ok(ds) => Ok(nums + RunningSums(prev, ds))
  }

  /** `DeltaEncoder::decode_u32_list`. */
  method DecodeDeltaList(data: seq<Byte>) returns (r: Result<seq<U32>>)
    ensures r == DeltaDecoded(data)
    ensures |data| < 4 ==> r == Ok([])
  {
    if |data| < 4 {
      return Ok([]);
    }
    var first := FromLeBytes(data[..4]);
    var nums := [first];
    var pos := 4;
    var prev := first;
    assert data[4..] == data[pos..];
    while pos < |data|
      invariant 4 <= pos <= |data|
      invariant DeltaDecoded(data) == Continue(nums, prev, VByte.DecodedList(data[pos..]))
      decreases |data| - pos
    {
      var d := VByte.DecodeU32(data[pos..]);
      if d.Err? {
        return Err(d.error);
      }
      var (delta, consumed) := d.value;
      assert data[pos..][consumed..] == data[pos + consumed..];
      ContinueStep(nums, prev, delta, VByte.DecodedList(data[pos + consumed..]));
      var val := WrapAdd(prev, delta);
      nums := nums + [val];
      prev := val;
      pos := pos + consumed;
    }
    assert data[pos..] == [];
    assert nums + [] == nums;
    return Ok(nums);
  }

  lemma ContinueStep(nums: seq<U32>, prev: U32, delta: U32, rest: Result<seq<U32>>)
    ensures Continue(nums, prev, PrependOne(delta, rest))
         == Continue(nums + [WrapAdd(prev, delta)], WrapAdd(prev, delta), rest)
  {
    if rest.Ok? {
      var next := WrapAdd(prev, delta);
      assert ([delta] + rest.value)[1..] == rest.value;
      assert nums + ([next] + RunningSums(next, rest.value))
          == (nums + [next]) + RunningSums(next, rest.value);
    }
  }

  /** `delta` in front of a decoded list, or the list's error. */
  function PrependOne(delta: U32, r: Result<seq<U32>>): Result<seq<U32>>
  {
    match r
    case Err(e) => Err(e)
    case Ok(ds) => Ok([delta] + ds)
  }
}
