/** Bytes, signed network-order integers and Python slices, as the PostgreSQL wire client uses them. */
module PgBytes {

  newtype byte = x: int | 0 <= x < 256

  type bytes = seq<byte>

  const MIN32 := -0x8000_0000
  const MAX32 := 0x7FFF_FFFF
  const MIN16 := -0x8000
  const MAX16 := 0x7FFF

  /** `struct.pack("!i", n)` */
  function PackI32(n: int): (b: bytes)
    requires MIN32 <= n <= MAX32
    ensures |b| == 4
  {
    var u := if n < 0 then n + 0x1_0000_0000 else n;
    [(u / 0x100_0000) as byte, (u / 0x1_0000 % 256) as byte, (u / 256 % 256) as byte, (u % 256) as byte]
  }

  /** `struct.unpack("!i", b)` */
  function UnpackI32(b: bytes): int
    requires |b| == 4
  {
    var u := ((b[0] as int * 256 + b[1] as int) * 256 + b[2] as int) * 256 + b[3] as int;
    if u > MAX32 then u - 0x1_0000_0000 else u
  }

  function PackI16(n: int): (b: bytes)
    requires MIN16 <= n <= MAX16
    ensures |b| == 2
  {
    var u := if n < 0 then n + 0x1_0000 else n;
    [(u / 256) as byte, (u % 256) as byte]
  }

  function UnpackI16(b: bytes): int
    requires |b| == 2
  {
    var u := b[0] as int * 256 + b[1] as int;
    if u > MAX16 then u - 0x1_0000 else u
  }

  lemma UnpackPack32(n: int)
    requires MIN32 <= n <= MAX32
    ensures UnpackI32(PackI32(n)) == n
  {
    var u := if n < 0 then n + 0x1_0000_0000 else n;
    var h := u / 256;
    assert u / 0x1_0000 == h / 256 && u / 0x100_0000 == h / 256 / 256;
    assert u == h * 256 + u % 256;
    assert h == (h / 256) * 256 + h % 256;
    assert h / 256 == (h / 256 / 256) * 256 + h / 256 % 256;
  }

  lemma UnpackPack16(n: int)
    requires MIN16 <= n <= MAX16
    ensures UnpackI16(PackI16(n)) == n
  {
  }

  /** The number written by the bytes, the most significant one first. */
  function BigEndian(b: bytes): nat {
    if b == [] then 0 else BigEndian(b[..|b| - 1]) * 256 + b[|b| - 1] as int
  }

  lemma BigEndianTwo(b: bytes)
    requires |b| == 2
    ensures BigEndian(b) == b[0] as int * 256 + b[1] as int
  {
    var first := b[..1];
    assert first[0] == b[0] && first[..0] == [];
    assert BigEndian(first) == b[0] as int;
  }

  lemma BigEndianFour(b: bytes)
    requires |b| == 4
    ensures BigEndian(b) == ((b[0] as int * 256 + b[1] as int) * 256 + b[2] as int) * 256 + b[3] as int
  {
    assert b[..3][..2] == b[..2];
    BigEndianTwo(b[..2]);
  }

  /** Network order in two's complement: the sign is the top bit of the first byte. */
  lemma NetworkOrder(b: bytes)
    ensures |b| == 4 ==> UnpackI32(b) == BigEndian(b) - if b[0] >= 128 then 0x1_0000_0000 else 0
    ensures |b| == 2 ==> UnpackI16(b) == BigEndian(b) - if b[0] >= 128 then 0x1_0000 else 0
  {
    if |b| == 4 { BigEndianFour(b); }
    if |b| == 2 { BigEndianTwo(b); }
  }

  /** A slice bound: negative bounds count from the end, and both ends clip. */
  function Clip(n: nat, i: int): (r: nat)
    ensures r <= n
  {
    if i < 0 then (if n + i < 0 then 0 else n + i) else if i > n then n else i
  }

  /** `s[lo:hi]` with Python's rules. */
  function PySlice(s: bytes, lo: int, hi: int): bytes {
    var a, b := Clip(|s|, lo), Clip(|s|, hi);
    if a <= b then s[a..b] else []
  }

  lemma PySliceInside(s: bytes, lo: nat, hi: nat)
    requires lo <= hi <= |s|
    ensures PySlice(s, lo, hi) == s[lo..hi]
  {
  }
}
