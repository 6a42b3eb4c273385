/** Bytes, big-endian fields, and the text helpers of the Go standard library that the decoders use. */
module Bytes {

  type byte = n: int | 0 <= n < 256
  type bytes = seq<byte>

  const LF: byte := 0x0A
  const CR: byte := 0x0D
  const DOT: byte := 0x2E

  datatype Option<+T> = None | Some(value: T)

  function Min(a: int, b: int): (m: int)
  {
    if a < b then a else b
  }

  function Max(a: int, b: int): (m: int)
  {
    if a > b then a else b
  }

  // ---------- Big-endian fields ----------

  function U8(b: bytes, i: nat): (n: nat)
    requires i < |b|
    ensures n < 0x100
  {
    b[i] as int
  }

  function U16(b: bytes, i: nat): (n: nat)
    requires i + 2 <= |b|
    ensures n < 0x1_0000
  {
    256 * (b[i] as int) + b[i + 1] as int
  }

  function U24(b: bytes, i: nat): (n: nat)
    requires i + 3 <= |b|
    ensures n < 0x100_0000
  {
    65536 * (b[i] as int) + U16(b, i + 1)
  }

  function U32(b: bytes, i: nat): (n: nat)
    requires i + 4 <= |b|
    ensures n < 0x1_0000_0000
  {
    65536 * U16(b, i) + U16(b, i + 2)
  }

  function PutU16(n: nat): (b: bytes)
    requires n < 0x1_0000
    ensures |b| == 2 && U16(b, 0) == n
  {
    [n / 256, n % 256]
  }

  function PutU24(n: nat): (b: bytes)
    requires n < 0x100_0000
    ensures |b| == 3 && U24(b, 0) == n
  {
    [n / 65536] + PutU16(n % 65536)
  }

  function PutU32(n: nat): (b: bytes)
    requires n < 0x1_0000_0000
    ensures |b| == 4 && U32(b, 0) == n
  {
    PutU16(n / 65536) + PutU16(n % 65536)
  }

  /** The little-endian forms. */
  function U16LE(b: bytes, i: nat): (n: nat)
    requires i + 2 <= |b|
    ensures n < 0x1_0000
  {
    b[i] as int + 256 * (b[i + 1] as int)
  }

  function U32LE(b: bytes, i: nat): (n: nat)
    requires i + 4 <= |b|
  {
    U16LE(b, i) + 65536 * U16LE(b, i + 2)
  }

  function PutU16LE(n: nat): (b: bytes)
    requires n < 0x1_0000
    ensures |b| == 2 && U16LE(b, 0) == n
  {
    [n % 256, n / 256]
  }

  function PutU32LE(n: nat): (b: bytes)
    requires n < 0x1_0000_0000
    ensures |b| == 4 && U32LE(b, 0) == n
  {
    PutU16LE(n % 65536) + PutU16LE(n / 65536)
  }

  /** A vector with a one-byte length in front. */
  function Vec8(s: bytes): (b: bytes)
    requires |s| < 0x100
    ensures |b| == 1 + |s|
  {
    [|s|] + s
  }

  /** A vector with a two-byte length in front. */
  function Vec16(s: bytes): (b: bytes)
    requires |s| < 0x1_0000
    ensures |b| == 2 + |s|
  {
    PutU16(|s|) + s
  }

  // ---------- Where an encoding lies in a buffer ----------

  ghost predicate At(b: bytes, i: nat, part: bytes)
  {
    i + |part| <= |b| && b[i..i + |part|] == part
  }

  lemma AtConcat(b: bytes, i: nat, p: bytes, q: bytes)
    ensures At(b, i, p + q) <==> At(b, i, p) && At(b, i + |p|, q)
  {
    if At(b, i, p + q) {
      assert p == (p + q)[..|p|] && q == (p + q)[|p|..];
    }
    if At(b, i, p) && At(b, i + |p|, q) {
      assert b[i..i + |p + q|] == b[i..i + |p|] + b[i + |p|..i + |p| + |q|];
    }
  }

  lemma AtByte(b: bytes, i: nat, n: byte)
    ensures At(b, i, [n]) <==> i < |b| && b[i] == n
  {
    if i < |b| {
      assert b[i..i + 1] == [b[i]];
    }
  }

  lemma AtU16(b: bytes, i: nat, n: nat)
    requires n < 0x1_0000
    ensures At(b, i, PutU16(n)) <==> i + 2 <= |b| && U16(b, i) == n
  {
    if i + 2 <= |b| {
      assert b[i..i + 2] == [b[i], b[i + 1]];
    }
  }

  lemma U16InSlice(b: bytes, i: nat, j: nat, k: nat)
    requires i + k + 2 <= j <= |b|
    ensures U16(b[i..j], k) == U16(b, i + k)
  {
  }

  lemma U24InSlice(b: bytes, i: nat, j: nat, k: nat)
    requires i + k + 3 <= j <= |b|
    ensures U24(b[i..j], k) == U24(b, i + k)
  {
    hide U16;
    U16InSlice(b, i, j, k + 1);
  }

  lemma AtU24(b: bytes, i: nat, n: nat)
    requires n < 0x100_0000
    ensures At(b, i, PutU24(n)) <==> i + 3 <= |b| && U24(b, i) == n
  {
    hide At, U16, PutU16;
    AtConcat(b, i, [n / 65536], PutU16(n % 65536));
    AtByte(b, i, n / 65536);
    AtU16(b, i + 1, n % 65536);
  }

  lemma AtU32(b: bytes, i: nat, n: nat)
    requires n < 0x1_0000_0000
    ensures At(b, i, PutU32(n)) <==> i + 4 <= |b| && U32(b, i) == n
  {
    AtConcat(b, i, PutU16(n / 65536), PutU16(n % 65536));
    AtU16(b, i, n / 65536);
    AtU16(b, i + 2, n % 65536);
  }

  lemma AtVec8(b: bytes, i: nat, s: bytes)
    requires |s| < 0x100
    ensures At(b, i, Vec8(s)) <==> i < |b| && b[i] == |s| && At(b, i + 1, s)
  {
    AtConcat(b, i, [|s|], s);
    AtByte(b, i, |s|);
  }

  lemma AtVec16(b: bytes, i: nat, s: bytes)
    requires |s| < 0x1_0000
    ensures At(b, i, Vec16(s)) <==> i + 2 <= |b| && U16(b, i) == |s| && At(b, i + 2, s)
  {
    AtConcat(b, i, PutU16(|s|), s);
    AtU16(b, i, |s|);
  }

  lemma SliceOfSlice<T>(s: seq<T>, lo: nat, hi: nat, i: nat, j: nat)
    requires i <= j && lo + j <= hi <= |s|
    ensures s[lo..hi][i..j] == s[lo + i..lo + j]
  {
    var w := s[lo..hi];
    var v := w[i..j];
    assert forall k :: 0 <= k < |v| ==> v[k] == w[i + k];
  }

  /** A prefix of the window `b[lo..hi]` is a part of `b` that starts at `lo` and ends by `hi`. */
  lemma AtFits(b: bytes, i: nat, part: bytes)
    requires At(b, i, part)
    ensures i + |part| <= |b|
  {
  }

  lemma AtSlice(b: bytes, i: nat, j: nat)
    requires i <= j <= |b|
    ensures At(b, i, b[i..j])
  {
  }

  lemma AtWindow(b: bytes, lo: nat, hi: nat, i: nat, part: bytes)
    requires lo <= hi <= |b|
    ensures At(b[lo..hi], i, part) <==> At(b, lo + i, part) && lo + i + |part| <= hi
  {
    if lo + i + |part| <= hi {
      SliceOfSlice(b, lo, hi, i, i + |part|);
    }
  }

  lemma AtSuffix(b: bytes, lo: nat, i: nat, part: bytes)
    requires lo <= |b|
    ensures At(b[lo..], i, part) <==> At(b, lo + i, part)
  {
    assert b[lo..] == b[lo..|b|];
    AtWindow(b, lo, |b|, i, part);
  }

  /** Wire order is most significant byte first, `LE` order the reverse. */
  lemma ByteOrder(a: byte, b: byte, c: byte, d: byte)
    ensures U16([a, b], 0) == 0x100 * (a as int) + b as int
    ensures U24([a, b, c], 0) == 0x1_0000 * (a as int) + 0x100 * (b as int) + c as int
    ensures U32([a, b, c, d], 0) == 0x100_0000 * (a as int) + 0x1_0000 * (b as int) + 0x100 * (c as int) + d as int
    ensures U32LE([a, b, c, d], 0) == U32([d, c, b, a], 0)
  {
  }

  // ---------- Text ----------

  /** What `strings.ToLower` does to a string holding a byte outside ASCII: a parameter of the model. */
  type Fold = bytes -> bytes

  predicate IsAscii(s: bytes)
  {
    forall c :: c in s ==> c < 0x80
  }

  function LowerByte(c: byte): (r: byte)
  {
    if 0x41 <= c <= 0x5A then c + 32 else c
  }

  /** `strings.ToLower`. */
  function ToLower(fold: Fold, s: bytes): (r: bytes)
    ensures IsAscii(s) ==> |r| == |s|
  {
    if IsAscii(s) then seq(|s|, i requires 0 <= i < |s| => LowerByte(s[i])) else fold(s)
  }

  /**
   * The width of the white-space character at the front of `s`, or 0 when there is none.
   * These are exactly the UTF-8 encodings of the characters `unicode.IsSpace` accepts. Each starts
   * with a byte that is never a continuation byte, so looking at every byte offset finds the same
   * characters as decoding the string from its start.
   */
  function SpaceWidth(s: bytes): (w: nat)
    ensures w <= 3 && w <= |s|
  {
    if |s| >= 1 && (0x09 <= s[0] <= 0x0D || s[0] == 0x20) then 1
    else if |s| >= 2 && s[0] == 0xC2 && (s[1] == 0x85 || s[1] == 0xA0) then 2
    else if |s| >= 3 && IsWideSpace(s[0], s[1], s[2]) then 3
    else 0
  }

  predicate IsWideSpace(a: byte, b: byte, c: byte)
  {
    || (a == 0xE1 && b == 0x9A && c == 0x80)
    || (a == 0xE2 && b == 0x80 && (0x80 <= c <= 0x8A || c == 0xA8 || c == 0xA9 || c == 0xAF))
    || (a == 0xE2 && b == 0x81 && c == 0x9F)
    || (a == 0xE3 && b == 0x80 && c == 0x80)
  }

  function TrimLeft(s: bytes): (r: bytes)
    ensures |r| <= |s|
  {
    if SpaceWidth(s) == 0 then s else TrimLeft(s[SpaceWidth(s)..])
  }

  /** The width of the white-space character at the end of `s`, or 0 when there is none. */
  function SpaceTail(s: bytes): (w: nat)
    ensures w <= |s| && (w > 0 ==> SpaceWidth(s[|s| - w..]) == w)
  {
    if |s| >= 1 && SpaceWidth(s[|s| - 1..]) == 1 then 1
    else if |s| >= 2 && SpaceWidth(s[|s| - 2..]) == 2 then 2
    else if |s| >= 3 && SpaceWidth(s[|s| - 3..]) == 3 then 3
    else 0
  }

  function TrimRight(s: bytes): (r: bytes)
    ensures |r| <= |s|
  {
    if SpaceTail(s) == 0 then s else TrimRight(s[..|s| - SpaceTail(s)])
  }

  /** `strings.TrimSpace`. */
  function TrimSpace(s: bytes): (r: bytes)
    ensures |r| <= |s|
  {
    TrimRight(TrimLeft(s))
  }
}
