/** Shared vocabulary of the engine model: fixed-width integers, bytes,
    the engine's error kinds, and the Option/Result wrappers used for the
    source's `Option<T>` and `Result<T>` returns. */
module Base {

  const U32_MOD: int := 0x1_0000_0000
  const U64_MOD: int := 0x1_0000_0000_0000_0000
  const U64_MAX: int := 0xFFFF_FFFF_FFFF_FFFF

  type Byte = x: int | 0 <= x < 256
  type U8 = x: int | 0 <= x < 256
  type U32 = x: int | 0 <= x < 0x1_0000_0000
  type U64 = x: int | 0 <= x < 0x1_0000_0000_0000_0000

  /** `x as u32` on a non-negative integer: keeps the low 32 bits. */
  function TruncU32(x: nat): (r: U32)
    ensures x < U32_MOD ==> r == x
  {
    x % U32_MOD
  }

  /** The error kinds of the engine's `ErrorKind` enum that the model raises. */
  datatype ErrorKind = Parse | InvalidInput | OutOfMemory | InvalidState

  datatype Error = Error(kind: ErrorKind, context: string)

  datatype Option<T> = None | Some(value: T)

  datatype Result<T> = Ok(value: T) | Err(error: Error) {
    predicate IsFailure() { Err? }
    function PropagateFailure<U>(): Result<U>
      requires Err?
    {
      Err(error)
    }
    function Extract(): T
      requires Ok?
    {
      value
    }
  }

  /** The set of values occurring in a sequence. */
  function Elems<T>(s: seq<T>): set<T>
  {
    set x | x in s
  }

  predicate StrictlyAscending(s: seq<int>)
  {
    forall i, j :: 0 <= i < j < |s| ==> s[i] < s[j]
  }

  predicate Ascending(s: seq<int>)
  {
    forall i, j :: 0 <= i < j < |s| ==> s[i] <= s[j]
  }

  /** No element occurs twice. */
  predicate Distinct<T(==)>(s: seq<T>)
  {
    forall i, j :: 0 <= i < j < |s| ==> s[i] != s[j]
  }

  function Min(x: int, y: int): int { if x <= y then x else y }
  function Max(x: int, y: int): int { if x >= y then x else y }

  predicate StartsWith<T(==)>(s: seq<T>, prefix: seq<T>)
  {
    |prefix| <= |s| && s[..|prefix|] == prefix
  }

  predicate EndsWith<T(==)>(s: seq<T>, suffix: seq<T>)
  {
    |suffix| <= |s| && s[|s| - |suffix|..] == suffix
  }

  /** `s` occurs in `t` starting at index `k`. */
  predicate OccursAt<T(==)>(t: seq<T>, s: seq<T>, k: nat)
  {
    k + |s| <= |t| && t[k..k + |s|] == s
  }

  predicate Contains<T(==)>(t: seq<T>, s: seq<T>)
  {
    exists k :: 0 <= k <= |t| && OccursAt(t, s, k)
  }

  /** `v.to_le_bytes()` for a u32. */
  function LeBytes(v: U32): (r: seq<Byte>)
    ensures |r| == 4
  {
    [v % 256, (v / 256) % 256, (v / 65536) % 256, v / 16777216]
  }

  /** `u32::from_le_bytes` on four bytes. */
  function FromLeBytes(b: seq<Byte>): U32
    requires |b| == 4
  {
    var b0, b1, b2, b3: int := b[0], b[1], b[2], b[3];
    b0 + 256 * b1 + 65536 * b2 + 16777216 * b3
  }

  /** The two byte conversions invert each other. */
  lemma LeBytesRoundTrip(v: U32, b: seq<Byte>)
    requires |b| == 4
    ensures FromLeBytes(LeBytes(v)) == v
    ensures LeBytes(FromLeBytes(b)) == b
  {
    var x := FromLeBytes(b);
    var b1, b2, b3: int := b[1], b[2], b[3];
    assert x / 256 == b1 + 256 * b2 + 65536 * b3;
    assert x / 65536 == b2 + 256 * b3;
    assert x / 16777216 == b3;
    var y := v / 256;
    assert v / 65536 == y / 256;
    assert v / 16777216 == (v / 65536) / 256;
  }

  /** `a.wrapping_sub(b)` on u32. */
  function WrapSub(a: U32, b: U32): U32
  {
    (a - b) % U32_MOD
  }

  /** `a.wrapping_add(b)` on u32. */
  function WrapAdd(a: U32, b: U32): U32
  {
    (a + b) % U32_MOD
  }

  /** Adding back a wrapped difference restores the minuend. */
  lemma WrapAddSub(a: U32, b: U32)
    ensures WrapAdd(b, WrapSub(a, b)) == a
  {
  }
}
