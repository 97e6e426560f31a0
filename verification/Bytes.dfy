/// Bytes, big-endian cells and NUL-terminated strings, shared by every module
/// that reads or writes a flattened devicetree.
module Bytes {
  type byte = b: int | 0 <= b < 0x100
  type bytes = seq<byte>
  type u32 = x: int | 0 <= x < U32_LIMIT
  type u64 = x: int | 0 <= x < U64_LIMIT

  const U32_LIMIT := 0x1_0000_0000
  const U64_LIMIT := 0x1_0000_0000_0000_0000

  datatype Option<+T> = None | Some(value: T) {
    predicate IsFailure() { None? }
    function PropagateFailure<U>(): Option<U>
      requires None?
    {
      None
    }
    function Extract(): T
      requires Some?
    {
      value
    }
  }

  /// `io::Result` where the only error kind is `InvalidData`: the messages are dropped.
  datatype Result<+T> = Ok(value: T) | InvalidData {
    predicate IsFailure() { InvalidData? }
    function PropagateFailure<U>(): Result<U>
      requires InvalidData?
    {
      InvalidData
    }
    function Extract(): T
      requires Ok?
    {
      value
    }
  }

  /// An ASCII string literal as bytes.
  function Ascii(s: string): (b: bytes)
    ensures |b| == |s|
  {
    seq(|s|, i requires 0 <= i < |s| => s[i] as int % 0x100)
  }

  function Be32(x: u32): (b: bytes)
    ensures |b| == 4
  {
    var hi, lo := x / 0x1_0000, x % 0x1_0000;
    [hi / 0x100, hi % 0x100, lo / 0x100, lo % 0x100]
  }

  function De32(b: bytes): u32
    requires |b| == 4
  {
    var hi: int, lo: int := 0x100 * (b[0] as int) + b[1], 0x100 * (b[2] as int) + b[3];
    0x1_0000 * hi + lo
  }

  function Be64(x: u64): (b: bytes)
    ensures |b| == 8
  {
    Be32(x / U32_LIMIT) + Be32(x % U32_LIMIT)
  }

  function De64(b: bytes): u64
    requires |b| == 8
  {
    De32(b[..4]) * U32_LIMIT + De32(b[4..])
  }

  lemma De32Be32(x: u32)
    ensures De32(Be32(x)) == x
  {
    var hi, lo := x / 0x1_0000, x % 0x1_0000;
    assert 0x100 * (hi / 0x100) + hi % 0x100 == hi;
    assert 0x100 * (lo / 0x100) + lo % 0x100 == lo;
  }

  lemma Be32De32(b: bytes)
    requires |b| == 4
    ensures Be32(De32(b)) == b
  {
    var hi: int, lo: int := 0x100 * (b[0] as int) + b[1], 0x100 * (b[2] as int) + b[3];
    assert De32(b) / 0x1_0000 == hi && De32(b) % 0x1_0000 == lo;
    assert hi / 0x100 == b[0] && hi % 0x100 == b[1];
    assert lo / 0x100 == b[2] && lo % 0x100 == b[3];
  }

  lemma De64Be64(x: u64)
    ensures De64(Be64(x)) == x
  {
    var hi, lo := x / U32_LIMIT, x % U32_LIMIT;
    assert Be64(x)[..4] == Be32(hi) && Be64(x)[4..] == Be32(lo);
    De32Be32(hi);
    De32Be32(lo);
  }

  lemma Be64De64(b: bytes)
    requires |b| == 8
    ensures Be64(De64(b)) == b
  {
    Be32De32(b[..4]);
    Be32De32(b[4..]);
    assert De64(b) / U32_LIMIT == De32(b[..4]);
    assert De64(b) % U32_LIMIT == De32(b[4..]);
  }

  // Little-endian words.

  function Le32(b: bytes): u32
    requires |b| == 4
  {
    De32([b[3], b[2], b[1], b[0]])
  }

  function Le64(b: bytes): u64
    requires |b| == 8
  {
    De64([b[7], b[6], b[5], b[4], b[3], b[2], b[1], b[0]])
  }

  function ToLe64(x: u64): (b: bytes)
    ensures |b| == 8
  {
    var e := Be64(x);
    [e[7], e[6], e[5], e[4], e[3], e[2], e[1], e[0]]
  }

  lemma Le64ToLe64(x: u64)
    ensures Le64(ToLe64(x)) == x
  {
    hide De64, Be64;
    var e := Be64(x);
    assert [e[0], e[1], e[2], e[3], e[4], e[5], e[6], e[7]] == e;
    De64Be64(x);
  }

  function ToLe32(x: u32): (b: bytes)
    ensures |b| == 4
  {
    var e := Be32(x);
    [e[3], e[2], e[1], e[0]]
  }

  lemma Le32ToLe32(x: u32)
    ensures Le32(ToLe32(x)) == x
  {
    hide De32, Be32;
    var e := Be32(x);
    assert [e[0], e[1], e[2], e[3]] == e;
    De32Be32(x);
  }

  /// `read_be32`: fails when fewer than four bytes remain at `offset`.
  function ReadBe32(b: bytes, offset: nat): Result<u32> {
    if offset + 4 > |b| then InvalidData else Ok(De32(b[offset..offset + 4]))
  }

  /// `align_usize(value, 4)`.
  function Align4(value: nat): (r: nat)
    ensures value <= r < value + 4 && r % 4 == 0
  {
    (value + 3) / 4 * 4
  }

  lemma Align4Shift(base: nat, n: nat)
    requires base % 4 == 0
    ensures Align4(base + n) == base + Align4(n)
  {
  }

  /// Zero bytes that `pad_to(4)` appends after `n` bytes.
  function PadLen(n: nat): (r: nat)
    ensures n + r == Align4(n)
  {
    Align4(n) - n
  }

  function Zeros(n: nat): (r: bytes)
    ensures |r| == n && forall i :: 0 <= i < n ==> r[i] == 0
  {
    seq(n, _ => 0)
  }

  function Max(x: nat, y: nat): nat { if x >= y then x else y }

  function Min(x: nat, y: nat): nat { if x <= y then x else y }

  lemma Assoc<T>(x: seq<T>, y: seq<T>, z: seq<T>)
    ensures x + (y + z) == x + y + z
  {
  }

  lemma SplitAround<T>(s: seq<T>, i: nat)
    requires i < |s|
    ensures s == s[..i] + ([s[i]] + s[i + 1..])
  {
  }

  lemma EmptyConcat<T>(x: seq<T>)
    ensures [] + x == x && x + [] == x
  {
  }

  lemma ConsConcat<T>(x: seq<T>, y: seq<T>)
    requires x != []
    ensures x + y != [] && (x + y)[0] == x[0] && (x + y)[1..] == x[1..] + y
  {
  }

  lemma SubSlice<T>(s: seq<T>, lo: nat, hi: nat, i: nat, j: nat)
    requires lo <= hi <= |s| && i <= j <= hi - lo
    ensures s[lo..hi][i..j] == s[lo + i..lo + j]
  {
    var a, b := s[lo..hi][i..j], s[lo + i..lo + j];
    assert forall k :: 0 <= k < |b| ==> a[k] == b[k];
  }

  ghost predicate NulFree(s: bytes) {
    forall i :: 0 <= i < |s| ==> s[i] != 0
  }

  /// The first NUL at or after `start`.
  function FindNul(b: bytes, start: nat): (r: Option<nat>)
    ensures r.Some? ==> start <= r.value < |b| && b[r.value] == 0
    ensures r.Some? ==> forall k :: start <= k < r.value ==> b[k] != 0
    ensures r.None? ==> forall k :: start <= k < |b| ==> b[k] != 0
    decreases |b| - start
  {
    if start >= |b| then None
    else if b[start] == 0 then Some(start)
    else FindNul(b, start + 1)
  }

  lemma FindNulIs(b: bytes, start: nat, end: nat)
    requires start <= end < |b| && b[end] == 0
    requires forall k :: start <= k < end ==> b[k] != 0
    ensures FindNul(b, start) == Some(end)
  {
    var r := FindNul(b, start);
    assert r.Some?;
  }

  /// `string_at`: the NUL-terminated string that starts at `offset`.
  function StringAt(strings: bytes, offset: nat): Option<bytes> {
    if offset >= |strings| then None
    else match FindNul(strings, offset)
      case None => None
      case Some(end) => Some(strings[offset..end])
  }

  lemma StringAtGrows(strings: bytes, more: bytes, offset: nat)
    requires StringAt(strings, offset).Some?
    ensures StringAt(strings + more, offset) == StringAt(strings, offset)
  {
    var end := FindNul(strings, offset).value;
    assert (strings + more)[offset..end] == strings[offset..end];
    FindNulIs(strings + more, offset, end);
  }

  lemma StringAtIs(before: bytes, name: bytes, after: bytes)
    requires NulFree(name)
    ensures StringAt(before + name + [0] + after, |before|) == Some(name)
  {
    var s := before + name + [0] + after;
    var end := |before| + |name|;
    assert s[|before|..end] == name;
    assert forall i :: 0 <= i < |name| ==> s[|before| + i] == name[i];
    FindNulIs(s, |before|, end);
  }
}
