/** Variable-byte integer codec (`VByteEncoder` in src/compression/vbyte.rs):
    seven payload bits per byte, least significant group first, bit 128 set
    on every byte that is followed by another. */
module VByte {
  import opened Base

  const INCOMPLETE: Error := Error(Parse, "Incomplete VByte")
  const OVERFLOW: Error := Error(Parse, "VByte overflow")

  /** 128^k for the five byte positions a u32 can occupy. */
  function Pow128(k: nat): nat
    requires k <= 4
  {
    if k == 0 then 1
    else if k == 1 then 128
    else if k == 2 then 16384
    else if k == 3 then 2097152
    else 268435456
  }

  /** `((byte & 127) as u32) << (7 * k)`: the shift by 28 at the fifth byte keeps
      only the low four bits of the group. */
  function Chunk(b: Byte, k: nat): nat
    requires k <= 4
  {
    if k < 4 then Shifted(b % 128, k) else (b % 16) * 268435456
  }

  /** `x * 128^k`, written so that every product is by a constant. */
  function Shifted(x: nat, k: nat): nat
    requires k <= 4
  {
    if k == 0 then x
    else if k == 1 then x * 128
    else if k == 2 then x * 16384
    else if k == 3 then x * 2097152
    else x * 268435456
  }

  /** `Chunk` is the 7-bit group shifted into place and cut to 32 bits. */
  lemma ChunkIsTruncatedShift(b: Byte, k: nat)
    requires k <= 4
    ensures Chunk(b, k) == Shifted(b % 128, k) % U32_MOD
  {
    if k == 4 {
      var g := b % 128;
      var q, r := g / 16, (g % 16) * 268435456;
      assert g * 268435456 == q * U32_MOD + r;
      ModOfMultiple(q, r);
    }
  }

  /** Adding whole multiples of 2^32 does not change the low 32 bits. */
  lemma {:induction false} ModOfMultiple(q: nat, r: nat)
    requires r < U32_MOD
    ensures (q * U32_MOD + r) % U32_MOD == r
    decreases q
  {
    if q > 0 {
      ModOfMultiple(q - 1, r);
      assert q * U32_MOD + r == (q - 1) * U32_MOD + r + U32_MOD;
    }
  }

  // ---------------------------------------------------------------------
  // Specification of the byte format
  // ---------------------------------------------------------------------

  /** The bytes `encode_u32` appends for `v`. */
  function Encoded(v: U32): (r: seq<Byte>)
    ensures 1 <= |r|
    ensures forall i :: 0 <= i < |r| - 1 ==> r[i] >= 128
    ensures r[|r| - 1] < 128
    ensures v < 128 ==> r == [v]
    decreases v
  {
    if v < 128 then [v] else [v % 128 + 128] + Encoded(v / 128)
  }

  /** Encoding of a list: the encodings of its values, back to back. */
  function EncodedList(nums: seq<U32>): seq<Byte>
  {
    if nums == [] then [] else Encoded(nums[0]) + EncodedList(nums[1..])
  }

  /** `decode_u32` from byte `k` on, with `value` the bits gathered from bytes `0..k`. */
  function DecodedFrom(input: seq<Byte>, k: nat, value: nat): (r: Result<(U32, nat)>)
    requires k <= 4 && value < Pow128(k)
    ensures r.Ok? ==> k < r.value.1 <= |input| && r.value.1 <= 5
    decreases 4 - k
  {
    if k >= |input| then Err(INCOMPLETE)
    else
      var v := value + Chunk(input[k], k);
      if input[k] < 128 then Ok((v, k + 1))
      else if k == 4 then Err(OVERFLOW)
      else DecodedFrom(input, k + 1, v)
  }

  /** The value and byte count `decode_u32` reports for `input`. */
  function Decoded(input: seq<Byte>): (r: Result<(U32, nat)>)
    ensures r.Ok? ==> 0 < r.value.1 <= |input|
  {
    DecodedFrom(input, 0, 0)
  }

  /** The list `decode_u32_list` reports for `data`. */
  function DecodedList(data: seq<Byte>): Result<seq<U32>>
    decreases |data|
  {
    if data == [] then Ok([])
    else match Decoded(data)
      case Err(e) => Err(e)
      case Ok((v, consumed)) =>
        match DecodedList(data[consumed..])
        case Err(e) => Err(e)
        case Ok(rest) => Ok([v] + rest)
  }

  // ---------------------------------------------------------------------
  // Properties of the format
  // ---------------------------------------------------------------------

  /** A u32 never needs more than five bytes. */
  lemma {:induction false} EncodedLength(v: U32, k: nat)
    requires k <= 4 && Shifted(v, k) < U32_MOD
    ensures |Encoded(v)| <= 5 - k
    decreases v
  {
    if v >= 128 {
      assert k < 4;
      EncodedLength(v / 128, k + 1);
    }
  }

  lemma EncodedAtMostFive(v: U32)
    ensures 1 <= |Encoded(v)| <= 5
  {
    EncodedLength(v, 0);
  }

  /** Decoding from byte `k` an encoding of `w` placed there adds `w * 128^k`
      to the bits already gathered, giving `target`. */
  lemma {:induction false} DecodeEncodedFrom(s: seq<Byte>, k: nat, acc: nat, w: U32, target: nat)
    requires k <= 4 && acc < Pow128(k)
    requires acc + Shifted(w, k) == target && target < U32_MOD
    requires k + |Encoded(w)| <= |s| && s[k..k + |Encoded(w)|] == Encoded(w)
    ensures DecodedFrom(s, k, acc) == Ok((target, k + |Encoded(w)|))
    decreases w
  {
    if w < 128 {
      FinalByte(s, k, acc, w);
    } else {
      var acc' := ContinuationByte(s, k, acc, w, target);
      DecodeEncodedFrom(s, k + 1, acc', w / 128, target);
      assert DecodedFrom(s, k, acc) == DecodedFrom(s, k + 1, acc');
    }
  }

  /** One step of `DecodeEncodedFrom` when `w` fits in the byte at `k`. */
  lemma FinalByte(s: seq<Byte>, k: nat, acc: nat, w: U32)
    requires k <= 4 && acc < Pow128(k) && w < 128
    requires acc + Shifted(w, k) < U32_MOD
    requires k + |Encoded(w)| <= |s| && s[k..k + |Encoded(w)|] == Encoded(w)
    ensures DecodedFrom(s, k, acc) == Ok((acc + Shifted(w, k), k + |Encoded(w)|))
  {
    assert s[k] == s[k..k + 1][0] == w;
    LastGroupArith(acc, w, k);
  }

  /** One step of `DecodeEncodedFrom` when `w` needs the bytes after `k` too: the byte
      at `k` carries the low group and the remaining bytes encode `w / 128`. */
  lemma ContinuationByte(s: seq<Byte>, k: nat, acc: nat, w: U32, target: nat) returns (acc': nat)
    requires k <= 4 && acc < Pow128(k) && w >= 128
    requires acc + Shifted(w, k) == target && target < U32_MOD
    requires k + |Encoded(w)| <= |s| && s[k..k + |Encoded(w)|] == Encoded(w)
    ensures k < 4 && acc' < Pow128(k + 1)
    ensures acc' + Shifted(w / 128, k + 1) == target
    ensures |Encoded(w)| == 1 + |Encoded(w / 128)|
    ensures k + 1 + |Encoded(w / 128)| <= |s|
    ensures s[k + 1..k + 1 + |Encoded(w / 128)|] == Encoded(w / 128)
    ensures DecodedFrom(s, k, acc) == DecodedFrom(s, k + 1, acc')
  {
    ContinuationBytes(s, k, w);
    GroupStepArith(acc, w, k);
    DecodeStep(s, k, acc);
    acc' := acc + Chunk(s[k], k);
  }

  /** The bytes of an encoding of `w >= 128` placed at `k`: the low group with the
      continuation bit, then the encoding of `w / 128`. */
  lemma ContinuationBytes(s: seq<Byte>, k: nat, w: U32)
    requires w >= 128
    requires k + |Encoded(w)| <= |s| && s[k..k + |Encoded(w)|] == Encoded(w)
    ensures s[k] == w % 128 + 128
    ensures |Encoded(w)| == 1 + |Encoded(w / 128)|
    ensures k + 1 + |Encoded(w / 128)| <= |s|
    ensures s[k + 1..k + 1 + |Encoded(w / 128)|] == Encoded(w / 128)
  {
    var e := Encoded(w);
    assert e == [w % 128 + 128] + Encoded(w / 128);
    assert s[k] == s[k..k + |e|][0] == e[0];
    SliceTail(s, k, e);
  }

  /** Reading a continuation byte before the fifth moves on to the next byte. */
  lemma DecodeStep(s: seq<Byte>, k: nat, acc: nat)
    requires k < 4 && k < |s| && s[k] >= 128
    requires acc < Pow128(k) && acc + Chunk(s[k], k) < Pow128(k + 1)
    ensures DecodedFrom(s, k, acc) == DecodedFrom(s, k + 1, acc + Chunk(s[k], k))
  {
  }

  lemma SliceTail(s: seq<Byte>, k: nat, e: seq<Byte>)
    requires 1 <= |e| && k + |e| <= |s| && s[k..k + |e|] == e
    ensures s[k + 1..k + |e|] == e[1..]
  {
    assert s[k + 1..k + |e|] == s[k..k + |e|][1..];
  }

  /** Arithmetic of a final byte: its group lands unshifted-out, even at the fifth byte. */
  lemma LastGroupArith(acc: nat, w: U32, k: nat)
    requires k <= 4 && w < 128 && acc + Shifted(w, k) < U32_MOD
    ensures Chunk(w, k) == Shifted(w, k)
  {
  }

  /** Arithmetic of a continuation byte: a value needing more groups cannot start at the
      fifth byte, and the group just read accounts for the low seven bits of `w`. */
  lemma GroupStepArith(acc: nat, w: U32, k: nat)
    requires k <= 4 && acc < Pow128(k) && w >= 128 && acc + Shifted(w, k) < U32_MOD
    ensures k < 4
    ensures Chunk(w % 128 + 128, k) == Shifted(w % 128, k)
    ensures acc + Shifted(w % 128, k) < Pow128(k + 1)
    ensures acc + Shifted(w % 128, k) + Shifted(w / 128, k + 1) == acc + Shifted(w, k)
  {
    var q, m := w / 128, w % 128;
    assert w == 128 * q + m;
    if k == 0 {
    } else if k == 1 {
    } else if k == 2 {
    } else if k == 3 {
    } else {
      assert false;
    }
  }

  /** `decode_u32` inverts `encode_u32`: it returns the value and the number of bytes
      written, whatever follows them. */
  lemma DecodeEncoded(v: U32, rest: seq<Byte>)
    ensures Decoded(Encoded(v) + rest) == Ok((v, |Encoded(v)|))
  {
    var s := Encoded(v) + rest;
    assert s[0..|Encoded(v)|] == Encoded(v);
    DecodeEncodedFrom(s, 0, 0, v, v);
  }

  /** Input that ends before any byte without the continuation bit (within the five
      a u32 may take) is reported incomplete. */
  lemma {:induction false} DecodeIncomplete(input: seq<Byte>, k: nat, acc: nat)
    requires k <= 4 && acc < Pow128(k)
    requires |input| <= 4
    requires forall i :: k <= i < |input| ==> input[i] >= 128
    ensures DecodedFrom(input, k, acc) == Err(INCOMPLETE)
    decreases 4 - k
  {
    if k < |input| {
      DecodeIncomplete(input, k + 1, acc + Chunk(input[k], k));
    }
  }

  /** Five bytes that all carry the continuation bit are reported as an overflow. */
  lemma {:induction false} DecodeOverflow(input: seq<Byte>, k: nat, acc: nat)
    requires k <= 4 && acc < Pow128(k)
    requires |input| >= 5
    requires forall i :: k <= i < 5 ==> input[i] >= 128
    ensures DecodedFrom(input, k, acc) == Err(OVERFLOW)
    decreases 4 - k
  {
    if k < 4 {
      DecodeOverflow(input, k + 1, acc + Chunk(input[k], k));
    }
  }

  lemma IncompleteOrOverflow(input: seq<Byte>)
    ensures |input| <= 4 && (forall i :: 0 <= i < |input| ==> input[i] >= 128) ==>
              Decoded(input) == Err(INCOMPLETE)
    ensures |input| >= 5 && (forall i :: 0 <= i < 5 ==> input[i] >= 128) ==>
              Decoded(input) == Err(OVERFLOW)
  {
    if |input| <= 4 && (forall i :: 0 <= i < |input| ==> input[i] >= 128) {
      DecodeIncomplete(input, 0, 0);
    }
    if |input| >= 5 && (forall i :: 0 <= i < 5 ==> input[i] >= 128) {
      DecodeOverflow(input, 0, 0);
    }
  }

  /** `decode_u32_list` inverts `encode_u32_list`. */
  lemma {:induction false} DecodeEncodedList(nums: seq<U32>)
    ensures DecodedList(EncodedList(nums)) == Ok(nums)
    decreases |nums|
  {
    if nums != [] {
      var e := Encoded(nums[0]);
      var tail := EncodedList(nums[1..]);
      DecodeEncoded(nums[0], tail);
      assert (e + tail)[|e|..] == tail;
      DecodeEncodedList(nums[1..]);
      assert [nums[0]] + nums[1..] == nums;
    }
  }

  lemma {:induction false} EncodedListAppend(xs: seq<U32>, x: U32)
    ensures EncodedList(xs + [x]) == EncodedList(xs) + Encoded(x)
    decreases |xs|
  {
    if xs == [] {
      assert xs + [x] == [x];
    } else {
      assert (xs + [x])[1..] == xs[1..] + [x];
      EncodedListAppend(xs[1..], x);
    }
  }

  /** `nums` followed by a decoded tail, or the tail's error. */
  function PrependOk(nums: seq<U32>, r: Result<seq<U32>>): Result<seq<U32>>
  {
    match r
    case Err(e) => Err(e)
    case Ok(rest) => Ok(nums + rest)
  }

  lemma PrependOkSteps(nums: seq<U32>, more: seq<U32>, r: Result<seq<U32>>)
    ensures PrependOk([], r) == r
    ensures PrependOk(nums, PrependOk(more, r)) == PrependOk(nums + more, r)
  {
    if r.Ok? {
      assert [] + r.value == r.value;
      assert nums + (more + r.value) == (nums + more) + r.value;
    }
  }

  // ---------------------------------------------------------------------
  // The operations as the source runs them
  // ---------------------------------------------------------------------

  /** `encode_u32`: appends the encoding of `value` to `output`. */
  method EncodeU32(output: seq<Byte>, value: U32) returns (out: seq<Byte>)
    ensures out == output + Encoded(value)
    ensures 1 <= |out| - |output| <= 5
  {
    out := output;
    var v := value;
    while v >= 128
      invariant out + Encoded(v) == output + Encoded(value)
      decreases v
    {
      out := out + [v % 128 + 128];
      v := v / 128;
    }
    out := out + [v];
    EncodedAtMostFive(value);
  }

  /** `encode_u32_list`: the encodings of `nums`, in order. */
  method EncodeU32List(nums: seq<U32>) returns (out: seq<Byte>)
    ensures out == EncodedList(nums)
    ensures DecodedList(out) == Ok(nums)
  {
    out := [];
    for i := 0 to |nums|
      invariant out == EncodedList(nums[..i])
    {
      assert nums[..i + 1] == nums[..i] + [nums[i]];
      EncodedListAppend(nums[..i], nums[i]);
      out := EncodeU32(out, nums[i]);
    }
    assert nums[..|nums|] == nums;
    DecodeEncodedList(nums);
  }

  /** `decode_u32`: the value of the first encoded integer and the bytes it took. */
  method DecodeU32(input: seq<Byte>) returns (r: Result<(U32, nat)>)
    ensures r == Decoded(input)
  {
    var value: nat := 0;
    var k: nat := 0;
    while k < |input|
      invariant k <= 4 && value < Pow128(k)
      invariant DecodedFrom(input, k, value) == Decoded(input)
      decreases |input| - k
    {
      var b := input[k];
      value := value + Chunk(b, k);
      if b < 128 {
        return Ok((value, k + 1));
      }
      if k == 4 {
        return Err(OVERFLOW);
      }
      k := k + 1;
    }
    return Err(INCOMPLETE);
  }

  /** `decode_u32_list`: decodes integers until the input is used up, failing with the
      first error. */
  method DecodeU32List(data: seq<Byte>) returns (r: Result<seq<U32>>)
    ensures r == DecodedList(data)
  {
    var nums: seq<U32> := [];
    var pos := 0;
    assert data[0..] == data;
    PrependOkSteps([], [], DecodedList(data));
    while pos < |data|
      invariant 0 <= pos <= |data|
      invariant DecodedList(data) == PrependOk(nums, DecodedList(data[pos..]))
      decreases |data| - pos
    {
      var d := DecodeU32(data[pos..]);
      if d.Err? {
        return Err(d.error);
      }
      var (value, consumed) := d.value;
      assert data[pos..][consumed..] == data[pos + consumed..];
      PrependOkSteps(nums, [value], DecodedList(data[pos + consumed..]));
      nums := nums + [value];
      pos := pos + consumed;
    }
    assert data[pos..] == [];
    assert nums + [] == nums;
    return Ok(nums);
  }
}
