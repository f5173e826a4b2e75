/** Fixed-width unsigned integers and their byte encodings.

    The host the stack runs on is little-endian (DPDK on x86): a C store of a
    multi-byte integer into a frame buffer writes its bytes least significant
    first, and `htons`/`ntohs` swap the two bytes of a 16-bit value.  Network
    byte order (RFC 791, RFC 792) is big-endian. */
module Bytes {

  type u8 = x: int | 0 <= x < 0x100
  type u16 = x: int | 0 <= x < 0x1_0000
  type u32 = x: int | 0 <= x < 0x1_0000_0000
  type u64 = x: int | 0 <= x < 0x1_0000_0000_0000_0000

  function Pow256(n: nat): (r: nat)
    ensures r >= 1
  {
    if n == 0 then 1 else 256 * Pow256(n - 1)
  }

  /** The value of `s` read least significant byte first. */
  function LeValue(s: seq<u8>): (v: nat)
    ensures v < Pow256(|s|)
  {
    if s == [] then 0 else s[0] + 256 * LeValue(s[1..])
  }

  /** The `n` bytes of `v`, least significant first (a little-endian store). */
  function LeBytes(v: nat, n: nat): (s: seq<u8>)
    ensures |s| == n
  {
    if n == 0 then [] else [v % 256] + LeBytes(v / 256, n - 1)
  }

  lemma {:induction false} LeValueOfLeBytes(v: nat, n: nat)
    requires v < Pow256(n)
    ensures LeValue(LeBytes(v, n)) == v
  {
    if n > 0 {
      LeValueOfLeBytes(v / 256, n - 1);
      assert LeBytes(v, n)[1..] == LeBytes(v / 256, n - 1);
    }
  }

  lemma {:induction false} LeBytesOfLeValue(s: seq<u8>)
    ensures LeBytes(LeValue(s), |s|) == s
  {
    if s != [] {
      var v := LeValue(s);
      assert v % 256 == s[0] && v / 256 == LeValue(s[1..]);
      LeBytesOfLeValue(s[1..]);
    }
  }

  lemma Pow256Widths()
    ensures Pow256(2) == 0x1_0000 && Pow256(4) == 0x1_0000_0000
    ensures Pow256(8) == 0x1_0000_0000_0000_0000
  {
    assert Pow256(2) == 0x1_0000;
    assert Pow256(4) == 0x1_0000_0000;
  }

  /** A host load of a 16-, 32- or 64-bit integer from its bytes. */
  function ReadLE16(s: seq<u8>): u16
    requires |s| == 2
  {
    Pow256Widths();
    LeValue(s)
  }

  function ReadLE32(s: seq<u8>): u32
    requires |s| == 4
  {
    Pow256Widths();
    LeValue(s)
  }

  function ReadLE64(s: seq<u8>): u64
    requires |s| == 8
  {
    Pow256Widths();
    LeValue(s)
  }

  /** A store of a 16-bit value on the host. */
  function LE16(v: u16): (s: seq<u8>)
    ensures |s| == 2 && LeValue(s) == v
  {
    Pow256Widths();
    LeValueOfLeBytes(v, 2);
    LeBytes(v, 2)
  }

  /** A store of a 32-bit value on the host. */
  function LE32(v: u32): (s: seq<u8>)
    ensures |s| == 4 && LeValue(s) == v
  {
    Pow256Widths();
    LeValueOfLeBytes(v, 4);
    LeBytes(v, 4)
  }

  /** A store of a 64-bit value on the host. */
  function LE64(v: u64): (s: seq<u8>)
    ensures |s| == 8 && LeValue(s) == v
  {
    Pow256Widths();
    LeValueOfLeBytes(v, 8);
    LeBytes(v, 8)
  }

  /** A 16-bit value in network byte order (most significant byte first). */
  function BE16(v: u16): (s: seq<u8>)
    ensures |s| == 2 && (s[0] as int) * 256 + s[1] == v
  {
    [v / 256, v % 256]
  }

  /** `htons` (and `ntohs`) on a little-endian host: the two bytes swap. */
  function Htons(v: u16): (r: u16)
    ensures LE16(r) == BE16(v)
  {
    var r := (v % 256) * 256 + v / 256;
    assert LeBytes(r, 2) == [r % 256] + LeBytes(r / 256, 1);
    assert LeBytes(r / 256, 1) == [(r / 256) % 256] + LeBytes(r / 256 / 256, 0);
    r
  }

  lemma HtonsInvolution(v: u16)
    ensures Htons(Htons(v)) == v
  {
  }

  /** Reading an 8-byte host integer back from where `LE64` stored it. */
  lemma LE64RoundTrip(v: u64, rest: seq<u8>)
    ensures |LE64(v) + rest| >= 8
    ensures ReadLE64((LE64(v) + rest)[..8]) == v
  {
    assert (LE64(v) + rest)[..8] == LE64(v);
  }
}
