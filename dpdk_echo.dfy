/** The UDP endpoint of the DPDK echo application
    (src/c++/apps/echo/dpdk_common.cpp): one bound address, an optional
    default peer, the ephemeral-port counter, and the receive backlog that
    holds what the last burst fetched from the device.

    The globals of the source (`is_bound`, `bound_addr`, `port`,
    `has_default_peer`, `default_peer_addr`, `pkt_buffer`, `num_packets`,
    `pkt_idx`) are the fields of one `Endpoint`; `port_id` names its
    device `nic`. */
module DpdkEcho {
  import opened Bytes
  import opened Options
  import opened AddressTable
  import opened InternetChecksum
  import opened Wire
  import opened DpdkFraming
  import opened Driver

  /** `ip_config`. */
  const DPDK_TABLE: seq<Mac2Ip> := [
    Mac2Ip([0x24, 0x8a, 0x07, 0x50, 0x95, 0x08], 0x040c0c0c),
    Mac2Ip([0x24, 0x8a, 0x07, 0x50, 0x93, 0xe0], 0x050c0c0c)
  ]

  /** `ether_broadcast`, what `ip_to_mac` returns for an unknown IP. */
  const BROADCAST: MacAddr := [0xff, 0xff, 0xff, 0xff, 0xff, 0xff]

  const MAX_PKTS: nat := 64

  /** The first ephemeral port and the number of ephemeral ports. */
  const FIRST_PORT: int := 1024
  const PORT_RANGE: int := 65536 - 1024

  // ---------------------------------------------------------------------
  // The ephemeral-port counter.

  /** The counter after `port++` and the wrap test of `dpdk_bind`. */
  function NextPort(c: int): int
  {
    if c + 1 > 65535 then FIRST_PORT else c + 1
  }

  /** The counter after `k` binds that each took an ephemeral port. */
  function PortAfter(c: int, k: nat): int
  {
    if k == 0 then c else NextPort(PortAfter(c, k - 1))
  }

  /** The counter cycles through 1024..65535: after `k` ephemeral binds it
      has advanced `k` places around that cycle. */
  lemma {:induction false} PortAfterCycle(c: int, k: nat)
    requires FIRST_PORT <= c <= 65535
    ensures PortAfter(c, k) == FIRST_PORT + (c - FIRST_PORT + k) % PORT_RANGE
    ensures FIRST_PORT <= PortAfter(c, k) <= 65535
  {
    if k > 0 {
      PortAfterCycle(c, k - 1);
      var m := c - FIRST_PORT + k - 1;
      var q, r := m / PORT_RANGE, m % PORT_RANGE;
      assert m == q * PORT_RANGE + r;
      if r == PORT_RANGE - 1 {
        assert m + 1 == (q + 1) * PORT_RANGE;
        assert (m + 1) % PORT_RANGE == 0;
      } else {
        assert m + 1 == q * PORT_RANGE + (r + 1);
        assert (m + 1) % PORT_RANGE == r + 1;
      }
    }
  }

  /** No ephemeral port is handed out twice within one cycle. */
  lemma EphemeralPortsDistinct(c: int, i: nat, j: nat)
    requires FIRST_PORT <= c <= 65535
    requires i < j < PORT_RANGE
    ensures PortAfter(c, i) != PortAfter(c, j)
  {
    PortAfterCycle(c, i);
    PortAfterCycle(c, j);
    var a := c - FIRST_PORT;
    var qi, ri := (a + i) / PORT_RANGE, (a + i) % PORT_RANGE;
    var qj, rj := (a + j) / PORT_RANGE, (a + j) % PORT_RANGE;
    assert a + i == qi * PORT_RANGE + ri;
    assert a + j == qj * PORT_RANGE + rj;
  }

  // ---------------------------------------------------------------------
  // The frame `dpdk_sendto` builds.

  /** The IPv4 header checksum of `dpdk_sendto`: `ip_sum` over the header
      as it stands with its checksum field still zero. */
  function DpdkIpChecksum(src: u32, dst: u32): u16
  {
    Checksum(Ipv4Header(LE16(IP_TOTAL_LEN), [0, 0], src, dst))
  }

  /** The 42 header bytes: the stored total length and datagram length are
      host-order stores of 28 and 8, the checksum a host-order store of
      `ip_sum`'s result. */
  function DpdkHeaders(srcMac: MacAddr, dstMac: MacAddr, src: SockAddr, dst: SockAddr): seq<u8>
  {
    Headers(dstMac, srcMac, src, dst, LE16(IP_TOTAL_LEN), LE16(DpdkIpChecksum(src.ip, dst.ip)),
            LE16(UDP_HDR_LEN as u16))
  }

  /** The frame as intended: the headers and then the framing of `sga`
      with every count and length in full. */
  function DpdkFrame(srcMac: MacAddr, dstMac: MacAddr, src: SockAddr, dst: SockAddr, sga: SgArray): (f: seq<u8>)
    requires SgFits(sga)
    ensures |f| == HEADERS_LEN + FramingLen(sga)
  {
    EncodeFramingLength(sga);
    DpdkHeaders(srcMac, dstMac, src, dst) + EncodeFraming(sga)
  }

  /** The frame `dpdk_sendto` writes into a buffer whose bytes after the
      headers were `r`: the headers, then the framing with one-byte slot
      stores. */
  function DpdkFrameAsWritten(srcMac: MacAddr, dstMac: MacAddr, src: SockAddr, dst: SockAddr,
                              sga: SgArray, r: seq<u8>): (f: seq<u8>)
    requires FramingLen(sga) <= |r|
    ensures |f| == HEADERS_LEN + FramingLen(sga)
  {
    assert sga[..|sga|] == sga;
    DpdkHeaders(srcMac, dstMac, src, dst) + FramingOver(r, sga, |sga|)
  }

  /** What a receiver finds in the headers of a sent frame: the
      addresses and ports, TTL 64 and protocol UDP, and an IPv4 header
      whose checksum verifies. */
  lemma DpdkHeadersLayout(srcMac: MacAddr, dstMac: MacAddr, src: SockAddr, dst: SockAddr, rest: seq<u8>)
    ensures var f := DpdkHeaders(srcMac, dstMac, src, dst) + rest;
      && |f| >= HEADERS_LEN
      && f[..6] == dstMac && f[6..12] == srcMac
      && EtherType(f) == ETHER_TYPE_IPV4
      && f[22] == IP_DEFTTL && IpProto(f) == IPPROTO_UDP
      && IpSrc(f) == src.ip && IpDst(f) == dst.ip
      && UdpSrcPort(f) == src.port && UdpDstPort(f) == dst.port
      && Checksum(f[ETHER_HDR_LEN..ETHER_HDR_LEN + IPV4_HDR_LEN]) == 0
      && f[HEADERS_LEN..] == rest
  {
    var c := DpdkIpChecksum(src.ip, dst.ip);
    var f := DpdkHeaders(srcMac, dstMac, src, dst) + rest;
    ReadHeaders(dstMac, srcMac, src, dst, LE16(IP_TOTAL_LEN), LE16(c), LE16(UDP_HDR_LEN as u16), rest);
    var z := Ipv4Header(LE16(IP_TOTAL_LEN), [0, 0], src.ip, dst.ip);
    var ip := Ipv4Header(LE16(IP_TOTAL_LEN), LE16(c), src.ip, dst.ip);
    ChecksumField(LE16(IP_TOTAL_LEN), LE16(c), src.ip, dst.ip);
    ChecksumVerifies(z, 10);
    assert f[ETHER_HDR_LEN..ETHER_HDR_LEN + IPV4_HDR_LEN] == ip;
    assert f[22] == ip[8];
  }

  /** The intended frame: those headers, the framing right after them
      and `pkt_len` bytes in all. */
  lemma DpdkFrameLayout(srcMac: MacAddr, dstMac: MacAddr, src: SockAddr, dst: SockAddr,
                        sga: SgArray, tail: seq<u8>)
    requires SgFits(sga)
    ensures var f := DpdkFrame(srcMac, dstMac, src, dst, sga) + tail;
      && |DpdkFrame(srcMac, dstMac, src, dst, sga)| == HEADERS_LEN + FramingLen(sga)
      && f[..6] == dstMac && f[6..12] == srcMac
      && EtherType(f) == ETHER_TYPE_IPV4
      && f[22] == IP_DEFTTL && IpProto(f) == IPPROTO_UDP
      && IpSrc(f) == src.ip && IpDst(f) == dst.ip
      && UdpSrcPort(f) == src.port && UdpDstPort(f) == dst.port
      && Checksum(f[ETHER_HDR_LEN..ETHER_HDR_LEN + IPV4_HDR_LEN]) == 0
      && f[HEADERS_LEN..] == EncodeFraming(sga) + tail
  {
    var h := DpdkHeaders(srcMac, dstMac, src, dst);
    assert DpdkFrame(srcMac, dstMac, src, dst, sga) + tail == h + (EncodeFraming(sga) + tail);
    DpdkHeadersLayout(srcMac, dstMac, src, dst, EncodeFraming(sga) + tail);
  }

  /** Over a zeroed buffer, with fewer than 256 segments of fewer than 256
      bytes each, the frame as written is the intended one. */
  lemma ZeroedFrameAsIntended(srcMac: MacAddr, dstMac: MacAddr, src: SockAddr, dst: SockAddr,
                              sga: SgArray, r: seq<u8>)
    requires FramingLen(sga) <= |r| && Zeroed(r)
    requires |sga| < 256 && forall i :: 0 <= i < |sga| ==> |sga[i]| < 256
    ensures SgFits(sga)
    ensures DpdkFrameAsWritten(srcMac, dstMac, src, dst, sga, r) == DpdkFrame(srcMac, dstMac, src, dst, sga)
  {
    AsWrittenAgreesBelow256(r, sga);
  }

  // ---------------------------------------------------------------------
  // The accept filter and decoder of `dpdk_recvfrom`.

  /** What one received frame yields. */
  datatype Verdict = Dropped | Accepted(sga: SgArray, from: SockAddr)

  /** The checks of `dpdk_recvfrom`, in order: IPv4 ether type, the
      destination IP when bound, protocol UDP, the destination port when
      bound; then the framing.  A frame too short for the headers or for
      what its framing claims is dropped. */
  function Receive(f: seq<u8>, isBound: bool, bound: SockAddr): (v: Verdict)
    ensures v.Accepted? ==>
      && |f| >= HEADERS_LEN
      && EtherType(f) == ETHER_TYPE_IPV4 && IpProto(f) == IPPROTO_UDP
      && (isBound ==> IpDst(f) == bound.ip && UdpDstPort(f) == bound.port)
      && ParseFraming(f) == Some(v.sga)
      && v.from == SockAddr(IpSrc(f), UdpSrcPort(f))
  {
    if |f| < HEADERS_LEN then Dropped
    else if EtherType(f) != ETHER_TYPE_IPV4 then Dropped
    else if isBound && IpDst(f) != bound.ip then Dropped
    else if IpProto(f) != IPPROTO_UDP then Dropped
    else if isBound && UdpDstPort(f) != bound.port then Dropped
    else
      match ParseFraming(f)
      case None => Dropped
      case Some(sga) => Accepted(sga, SockAddr(IpSrc(f), UdpSrcPort(f)))
  }

  /** An intended frame is accepted by an unbound receiver or by one
      bound to its destination, with the segments and the sender's
      address. */
  lemma SentFrameAccepted(srcMac: MacAddr, dstMac: MacAddr, src: SockAddr, dst: SockAddr,
                          sga: SgArray, tail: seq<u8>, isBound: bool, bound: SockAddr)
    requires SgFits(sga)
    requires isBound ==> bound == dst
    ensures Receive(DpdkFrame(srcMac, dstMac, src, dst, sga) + tail, isBound, bound) == Accepted(sga, src)
  {
    DpdkFrameLayout(srcMac, dstMac, src, dst, sga, tail);
    var h := DpdkHeaders(srcMac, dstMac, src, dst);
    assert DpdkFrame(srcMac, dstMac, src, dst, sga) + tail == h + EncodeFraming(sga) + tail;
    FramingRoundTrip(h, sga, tail);
  }

  /** A frame written over a zeroed buffer, with fewer than 256 segments
      of fewer than 256 bytes each, is accepted with its segments and the
      sender's address. */
  lemma AsWrittenFrameAccepted(srcMac: MacAddr, dstMac: MacAddr, src: SockAddr, dst: SockAddr,
                               sga: SgArray, r: seq<u8>, tail: seq<u8>, isBound: bool, bound: SockAddr)
    requires FramingLen(sga) <= |r| && Zeroed(r)
    requires |sga| < 256 && forall i :: 0 <= i < |sga| ==> |sga[i]| < 256
    requires isBound ==> bound == dst
    ensures Receive(DpdkFrameAsWritten(srcMac, dstMac, src, dst, sga, r) + tail, isBound, bound) == Accepted(sga, src)
  {
    ZeroedFrameAsIntended(srcMac, dstMac, src, dst, sga, r);
    SentFrameAccepted(srcMac, dstMac, src, dst, sga, tail, isBound, bound);
  }

  /** The defect on the wire: one 256-byte segment written over a zeroed
      buffer reaches the receiver as one empty segment. */
  lemma AsWrittenFrameLosesLongSegment(srcMac: MacAddr, dstMac: MacAddr, src: SockAddr, dst: SockAddr,
                                       seg: seq<u8>, r: seq<u8>, tail: seq<u8>, isBound: bool, bound: SockAddr)
    requires |seg| == 256 && FramingLen([seg]) <= |r| && Zeroed(r)
    requires isBound ==> bound == dst
    ensures Receive(DpdkFrameAsWritten(srcMac, dstMac, src, dst, [seg], r) + tail, isBound, bound) == Accepted([[]], src)
  {
    var h := DpdkHeaders(srcMac, dstMac, src, dst);
    var e := FramingOver(r, [seg], 1);
    assert DpdkFrameAsWritten(srcMac, dstMac, src, dst, [seg], r) + tail == h + (e + tail);
    DpdkHeadersLayout(srcMac, dstMac, src, dst, e + tail);
    assert h + (e + tail) == h + e + tail;
    AsWrittenLosesLongSegment(h, r, seg, tail);
  }

  /** A bound receiver drops a frame sent to another IP or port, whatever
      the framing holds. */
  lemma MisaddressedFrameDropped(srcMac: MacAddr, dstMac: MacAddr, src: SockAddr, dst: SockAddr,
                                 sga: SgArray, r: seq<u8>, tail: seq<u8>, bound: SockAddr)
    requires FramingLen(sga) <= |r|
    requires bound != dst
    ensures Receive(DpdkFrameAsWritten(srcMac, dstMac, src, dst, sga, r) + tail, true, bound) == Dropped
  {
    var h := DpdkHeaders(srcMac, dstMac, src, dst);
    var e := FramingOver(r, sga, |sga|);
    assert DpdkFrameAsWritten(srcMac, dstMac, src, dst, sga, r) + tail == h + (e + tail);
    DpdkHeadersLayout(srcMac, dstMac, src, dst, e + tail);
  }

  // ---------------------------------------------------------------------
  // Byte stores into a packet buffer.

  /** `b` with the bytes at `at..at + |s|` replaced by `s`. */
  function Overwrite(b: seq<u8>, at: nat, s: seq<u8>): (r: seq<u8>)
    requires at + |s| <= |b|
    ensures |r| == |b|
    ensures forall k :: 0 <= k < |b| ==> r[k] == if at <= k < at + |s| then s[k - at] else b[k]
  {
    b[..at] + s + b[at + |s|..]
  }

  /** Stores the bytes of `s` at offset `at` of `buf` (field stores and
      `rte_memcpy`). */
  method Put(buf: array<u8>, at: nat, s: seq<u8>)
    requires at + |s| <= buf.Length
    modifies buf
    ensures buf[..] == Overwrite(old(buf[..]), at, s)
  {
    var i := 0;
    while i < |s|
      invariant 0 <= i <= |s|
      invariant forall k :: 0 <= k < buf.Length ==>
        buf[k] == if at <= k < at + i then s[k - at] else old(buf[k])
    {
      buf[at + i] := s[i];
      i := i + 1;
    }
    assert buf[..] == Overwrite(old(buf[..]), at, s);
  }

  /** A store right after a known prefix extends it. */
  lemma OverwriteExtends(b: seq<u8>, at: nat, s: seq<u8>)
    requires at + |s| <= |b|
    ensures Overwrite(b, at, s)[..at + |s|] == b[..at] + s
    ensures Overwrite(b, at, s)[at + |s|..] == b[at + |s|..]
  {
    var r := Overwrite(b, at, s);
    assert forall k :: 0 <= k < at + |s| ==> r[..at + |s|][k] == (b[..at] + s)[k];
  }

  /** The four header stores of the send path, in their order, leave the
      three headers in the first 42 bytes and the rest as it was. */
  lemma HeaderImage(b: seq<u8>, eth: seq<u8>, z: seq<u8>, c: seq<u8>, udp: seq<u8>, src: u32, dst: u32)
    requires HEADERS_LEN <= |b|
    requires |eth| == ETHER_HDR_LEN && |c| == 2 && |udp| == UDP_HDR_LEN
    requires z == Ipv4Header(LE16(IP_TOTAL_LEN), [0, 0], src, dst)
    ensures var r := Overwrite(Overwrite(Overwrite(Overwrite(b, 0, eth), ETHER_HDR_LEN, z), ETHER_HDR_LEN + 10, c),
                               ETHER_HDR_LEN + IPV4_HDR_LEN, udp);
      && r[..HEADERS_LEN] == eth + Ipv4Header(LE16(IP_TOTAL_LEN), c, src, dst) + udp
      && r[HEADERS_LEN..] == b[HEADERS_LEN..]
  {
    var r := Overwrite(Overwrite(Overwrite(Overwrite(b, 0, eth), ETHER_HDR_LEN, z), ETHER_HDR_LEN + 10, c),
                       ETHER_HDR_LEN + IPV4_HDR_LEN, udp);
    var ip := Ipv4Header(LE16(IP_TOTAL_LEN), c, src, dst);
    ChecksumField(LE16(IP_TOTAL_LEN), c, src, dst);
    var want := eth + ip + udp;
    forall k | 0 <= k < HEADERS_LEN ensures r[k] == want[k] {
      if k < 14 {
      } else if k < 24 {
        assert ip[k - 14] == z[k - 14];
      } else if k < 26 {
        assert ip[k - 14] == c[k - 24];
      } else if k < 34 {
        assert ip[k - 14] == z[k - 14];
      }
    }
    assert r[..HEADERS_LEN] == want;
    assert forall k :: 0 <= k < |b| - HEADERS_LEN ==> r[HEADERS_LEN..][k] == b[HEADERS_LEN..][k];
  }

  /** The header stores of `dpdk_sendto`: the Ethernet header, the IPv4
      header after `memset` with its checksum computed by `ip_sum` over
      the header while the checksum field is still zero, and the UDP
      header. */
  method WriteHeaders(pkt: array<u8>, srcMac: MacAddr, dstMac: MacAddr, src: SockAddr, dst: SockAddr)
    requires HEADERS_LEN <= pkt.Length
    modifies pkt
    ensures pkt[..HEADERS_LEN] == DpdkHeaders(srcMac, dstMac, src, dst)
    ensures pkt[HEADERS_LEN..] == old(pkt[HEADERS_LEN..])
  {
    ghost var b0 := pkt[..];
    var eth := EtherHeader(dstMac, srcMac);
    Put(pkt, 0, eth);
    var z := Ipv4Header(LE16(IP_TOTAL_LEN), [0, 0], src.ip, dst.ip);
    Put(pkt, ETHER_HDR_LEN, z);
    var c := IpSum(pkt[ETHER_HDR_LEN..ETHER_HDR_LEN + IPV4_HDR_LEN], IPV4_HDR_LEN);
    assert c == DpdkIpChecksum(src.ip, dst.ip) by {
      assert pkt[ETHER_HDR_LEN..ETHER_HDR_LEN + IPV4_HDR_LEN][..20] == z;
    }
    Put(pkt, ETHER_HDR_LEN + 10, LE16(c));
    var udp := UdpHeader(src.port, dst.port, LE16(UDP_HDR_LEN as u16));
    Put(pkt, ETHER_HDR_LEN + IPV4_HDR_LEN, udp);
    HeaderImage(b0, eth, z, LE16(c), udp, src.ip, dst.ip);
  }

  /** The store of one byte `v` into the first byte of a slot leaves the
      slot's other seven bytes as they were. */
  lemma SlotOnly(b: seq<u8>, at: nat, v: u8)
    requires at + SLOT_LEN <= |b|
    ensures var r := Overwrite(b, at, [v]);
      && r[..at + SLOT_LEN] == b[..at] + [v] + b[at + 1..at + SLOT_LEN]
      && r[at + SLOT_LEN..] == b[at + SLOT_LEN..]
  {
    var r := Overwrite(b, at, [v]);
    var p, q := r[..at + SLOT_LEN], b[..at] + [v] + b[at + 1..at + SLOT_LEN];
    assert forall k :: 0 <= k < |p| ==> p[k] == q[k];
    var p', q' := r[at + SLOT_LEN..], b[at + SLOT_LEN..];
    assert forall k :: 0 <= k < |p'| ==> p'[k] == q'[k];
  }

  /** A slot store and a copy right after it. */
  lemma SlotStore(b: seq<u8>, at: nat, v: u8, seg: seq<u8>)
    requires at + SLOT_LEN + |seg| <= |b|
    ensures var r := Overwrite(Overwrite(b, at, [v]), at + SLOT_LEN, seg);
      && r[..at + SLOT_LEN + |seg|] == b[..at] + [v] + b[at + 1..at + SLOT_LEN] + seg
      && r[at + SLOT_LEN + |seg|..] == b[at + SLOT_LEN + |seg|..]
  {
    var b1 := Overwrite(b, at, [v]);
    SlotOnly(b, at, v);
    OverwriteExtends(b1, at + SLOT_LEN, seg);
    assert b1[..at + SLOT_LEN] == b[..at] + [v] + b[at + 1..at + SLOT_LEN];
    assert b1[at + SLOT_LEN + |seg|..] == b1[at + SLOT_LEN..][|seg|..];
  }

  /** One turn of the segment loop as written: the length is stored
      through a `uint8_t *`, so only its low byte reaches the slot and the
      slot's other seven bytes keep what the buffer held; then the bytes. */
  method WriteSegment(pkt: array<u8>, pos: nat, ghost done: seq<u8>, seg: seq<u8>)
    requires pos + SLOT_LEN + |seg| <= pkt.Length && pkt[..pos] == done
    modifies pkt
    ensures pkt[..pos + SLOT_LEN + |seg|] == done + [|seg| % 256] + old(pkt[pos + 1..pos + SLOT_LEN]) + seg
    ensures pkt[pos + SLOT_LEN + |seg|..] == old(pkt[pos + SLOT_LEN + |seg|..])
  {
    ghost var b := pkt[..];
    assert b[..pos] == done;
    SlotStore(b, pos, |seg| % 256, seg);
    Put(pkt, pos, [|seg| % 256]);
    Put(pkt, pos + SLOT_LEN, seg);
    assert pkt[..pos + SLOT_LEN + |seg|] == pkt[..][..pos + SLOT_LEN + |seg|];
    assert pkt[pos + SLOT_LEN + |seg|..] == pkt[..][pos + SLOT_LEN + |seg|..];
  }

  /** The bytes a turn of the loop leaves, given that the buffer from
      `pos` on still holds what `r` held there. */
  lemma FramingStep(r: seq<u8>, sga: SgArray, i: nat, hdrs: seq<u8>, s: seq<u8>, pos: nat)
    requires |hdrs| == HEADERS_LEN && i < |sga| && FramingLen(sga) <= |r|
    requires pos == HEADERS_LEN + FramingOffset(sga, i) <= HEADERS_LEN + FramingLen(sga) && pos <= |s|
    requires s[pos..] == r[pos - HEADERS_LEN..]
    ensures FramingOffset(sga, i + 1) == FramingOffset(sga, i) + SLOT_LEN + |sga[i]| <= FramingLen(sga)
    ensures hdrs + FramingOver(r, sga, i + 1)
         == hdrs + FramingOver(r, sga, i) + [|sga[i]| % 256] + s[pos + 1..pos + SLOT_LEN] + sga[i]
  {
    OffsetStep(sga, i);
    var at := FramingOffset(sga, i);
    assert s[pos + 1..pos + SLOT_LEN] == r[at + 1..at + SLOT_LEN] by {
      assert s[pos + 1..pos + SLOT_LEN] == s[pos..][1..SLOT_LEN];
      assert r[at + 1..at + SLOT_LEN] == r[at..][1..SLOT_LEN];
    }
    var slot := SlotOver(r, at, |sga[i]|);
    assert FramingOver(r, sga, i + 1) == FramingOver(r, sga, i) + slot + sga[i];
    assert [|sga[i]| % 256] + s[pos + 1..pos + SLOT_LEN] == slot;
    Assoc4(hdrs, FramingOver(r, sga, i), slot, sga[i]);
    assert hdrs + FramingOver(r, sga, i) + slot == hdrs + FramingOver(r, sga, i) + [|sga[i]| % 256] + s[pos + 1..pos + SLOT_LEN];
  }

  /** The framing stores of `dpdk_sendto` after the headers, as written:
      the low byte of the count, then for each segment the low byte of its
      length and its bytes, each slot's other seven bytes left as the
      buffer held them; `end` is `pkt_len` and `dataLen` the `uint32_t`
      sum of the lengths. */
  method WriteFraming(pkt: array<u8>, sga: SgArray) returns (end: nat, dataLen: u32)
    requires HEADERS_LEN + FramingLen(sga) <= pkt.Length
    modifies pkt
    ensures end == HEADERS_LEN + FramingLen(sga)
    ensures pkt[..HEADERS_LEN] == old(pkt[..HEADERS_LEN])
    ensures pkt[HEADERS_LEN..end] == FramingOver(old(pkt[HEADERS_LEN..]), sga, |sga|)
    ensures pkt[end..] == old(pkt[end..])
    ensures dataLen == TotalLen(sga) % 0x1_0000_0000
  {
    ghost var hdrs := pkt[..HEADERS_LEN];
    ghost var r := pkt[HEADERS_LEN..];
    SlotOnly(pkt[..], HEADERS_LEN, |sga| % 256);
    Put(pkt, HEADERS_LEN, [|sga| % 256]);
    var pos: nat := HEADERS_LEN + SLOT_LEN;
    assert pkt[..pos] == hdrs + FramingOver(r, sga, 0) by {
      assert r[1..SLOT_LEN] == old(pkt[HEADERS_LEN + 1..HEADERS_LEN + SLOT_LEN]);
    }
    assert pkt[pos..] == r[pos - HEADERS_LEN..];
    var i: nat := 0;
    // `data_len` is a `uint32_t` whose additions wrap; reducing the sum
    // modulo 2^32 once at the end gives the same value.
    var total: nat := 0;
    while i < |sga|
      invariant 0 <= i <= |sga|
      invariant pos == HEADERS_LEN + FramingOffset(sga, i) <= HEADERS_LEN + FramingLen(sga)
      invariant pkt[..pos] == hdrs + FramingOver(r, sga, i)
      invariant pkt[pos..] == r[pos - HEADERS_LEN..]
      invariant total == TotalLen(sga[..i])
    {
      var seg := sga[i];
      FramingStep(r, sga, i, hdrs, pkt[..], pos);
      ghost var s := pkt[..];
      WriteSegment(pkt, pos, hdrs + FramingOver(r, sga, i), seg);
      assert pkt[pos + SLOT_LEN + |seg|..] == r[pos + SLOT_LEN + |seg| - HEADERS_LEN..] by {
        assert s[pos + SLOT_LEN + |seg|..] == s[pos..][SLOT_LEN + |seg|..];
      }
      total := total + |seg|;
      pos := pos + SLOT_LEN + |seg|;
      i := i + 1;
    }
    end := pos;
    dataLen := total % 0x1_0000_0000;
    assert sga[..i] == sga;
    assert pkt[..HEADERS_LEN] == pkt[..end][..HEADERS_LEN];
    assert pkt[HEADERS_LEN..end] == pkt[..end][HEADERS_LEN..];
    assert pkt[end..] == old(pkt[end..]) by {
      assert r[end - HEADERS_LEN..] == old(pkt[end..]);
    }
  }

  /** The frame stores of `dpdk_sendto`: headers, then the framing as
      written over what the buffer held; `end` is `pkt_len` and `dataLen`
      the `uint32_t` sum of the lengths. */
  method BuildFrame(pkt: array<u8>, srcMac: MacAddr, dstMac: MacAddr, src: SockAddr, dst: SockAddr,
                    sga: SgArray) returns (end: nat, dataLen: u32)
    requires HEADERS_LEN + FramingLen(sga) <= pkt.Length
    modifies pkt
    ensures end == HEADERS_LEN + FramingLen(sga)
    ensures pkt[..end] == DpdkFrameAsWritten(srcMac, dstMac, src, dst, sga, old(pkt[HEADERS_LEN..]))
    ensures dataLen == TotalLen(sga) % 0x1_0000_0000
  {
    WriteHeaders(pkt, srcMac, dstMac, src, dst);
    ghost var h := pkt[..HEADERS_LEN];
    ghost var r := pkt[HEADERS_LEN..];
    assert r == old(pkt[HEADERS_LEN..]);
    end, dataLen := WriteFraming(pkt, sga);
    assert pkt[..HEADERS_LEN] == h;
    assert pkt[..end] == pkt[..HEADERS_LEN] + pkt[HEADERS_LEN..end];
  }

  // ---------------------------------------------------------------------
  // The endpoint.

  class Endpoint {
    /** The device `port_id` names. */
    const nic: Nic<seq<u8>>
    var isBound: bool
    var boundAddr: SockAddr
    /** `default_peer_addr` when `has_default_peer` is set. */
    var defaultPeer: Option<SockAddr>
    /** The ephemeral-port counter `port`. */
    var nextPort: int
    /** The receive backlog: `num_packets` frames from `pkt_idx` on. */
    const pktBuffer: array<seq<u8>>
    var numPackets: nat
    var pktIdx: nat

    ghost predicate Valid()
      reads this
    {
      && pktBuffer.Length == MAX_PKTS
      && FIRST_PORT <= nextPort <= 65535
      && pktIdx + numPackets <= MAX_PKTS
    }

    constructor (nic: Nic<seq<u8>>)
      ensures Valid() && fresh(pktBuffer)
      ensures this.nic == nic && !isBound && boundAddr == SockAddr(0, 0) && defaultPeer == None
      ensures nextPort == FIRST_PORT && numPackets == 0 && pktIdx == 0
    {
      this.nic := nic;
      isBound := false;
      boundAddr := SockAddr(0, 0);
      defaultPeer := None;
      nextPort := FIRST_PORT;
      pktBuffer := new seq<u8>[MAX_PKTS](_ => []);
      numPackets := 0;
      pktIdx := 0;
    }

    /** `dpdk_bind(addr, size)`: a zero port takes the counter's value (in
        network order) and advances the counter; a zero IP takes the
        table's IP for the device's MAC.  The bound port is never zero. */
    method Bind(addr: SockAddr)
      requires Valid()
      modifies this
      ensures Valid()
      ensures isBound
      ensures boundAddr.port == (if addr.port == 0 then Htons(old(nextPort)) else addr.port)
      ensures nextPort == (if addr.port == 0 then NextPort(old(nextPort)) else old(nextPort))
      ensures boundAddr.ip == (if addr.ip == 0 then IpFor(DPDK_TABLE, nic.mac) else addr.ip)
      ensures addr.port == 0 ==> boundAddr.port != 0
      ensures defaultPeer == old(defaultPeer)
      ensures numPackets == old(numPackets) && pktIdx == old(pktIdx)
    {
      boundAddr := addr;
      if boundAddr.port == 0 {
        boundAddr := boundAddr.(port := Htons(nextPort));
        nextPort := nextPort + 1;
        if nextPort > 65535 {
          nextPort := FIRST_PORT;
        }
      }
      if boundAddr.ip == 0 {
        var ip := MacToIp(DPDK_TABLE, nic.mac);
        boundAddr := boundAddr.(ip := ip);
      }
      isBound := true;
    }

    /** `dpdk_bind()`: bind to port 0 and IP 0. */
    method BindAny()
      requires Valid()
      modifies this
      ensures Valid()
      ensures isBound
      ensures boundAddr == SockAddr(IpFor(DPDK_TABLE, nic.mac), Htons(old(nextPort)))
      ensures nextPort == NextPort(old(nextPort))
      ensures defaultPeer == old(defaultPeer)
      ensures numPackets == old(numPackets) && pktIdx == old(pktIdx)
    {
      Bind(SockAddr(0, 0));
    }

    /** `dpdk_connect`: later sends go to `peer`. */
    method Connect(peer: SockAddr)
      modifies this
      ensures defaultPeer == Some(peer)
      ensures isBound == old(isBound) && boundAddr == old(boundAddr) && nextPort == old(nextPort)
      ensures numPackets == old(numPackets) && pktIdx == old(pktIdx)
    {
      defaultPeer := Some(peer);
    }

    /** `dpdk_close`: forget the default peer. */
    method Close()
      modifies this
      ensures defaultPeer == None
      ensures isBound == old(isBound) && boundAddr == old(boundAddr) && nextPort == old(nextPort)
      ensures numPackets == old(numPackets) && pktIdx == old(pktIdx)
    {
      defaultPeer := None;
    }

    /** `dpdk_sendto(sga, addr)`: bind first if unbound, write the frame
        for the default peer (or `addr`) into the packet buffer `pkt`,
        hand it to the device, and return the `uint32_t` sum of the
        segment lengths.  Whether the device took the frame does not
        change the result. */
    method SendTo(sga: SgArray, addr: SockAddr, pkt: array<u8>) returns (ret: u32)
      requires Valid()
      requires HEADERS_LEN + FramingLen(sga) <= pkt.Length
      modifies this, nic, pkt
      ensures Valid() && isBound
      ensures old(isBound) ==> boundAddr == old(boundAddr) && nextPort == old(nextPort)
      ensures !old(isBound) ==>
        boundAddr == SockAddr(IpFor(DPDK_TABLE, nic.mac), Htons(old(nextPort))) && nextPort == NextPort(old(nextPort))
      ensures defaultPeer == old(defaultPeer)
      ensures numPackets == old(numPackets) && pktIdx == old(pktIdx)
      ensures var peer := if defaultPeer.Some? then defaultPeer.value else addr;
        var frame := DpdkFrameAsWritten(nic.mac, MacFor(DPDK_TABLE, peer.ip, BROADCAST), boundAddr, peer, sga,
                                        old(pkt[HEADERS_LEN..]));
        && |frame| <= pkt.Length && pkt[..|frame|] == frame
        && (nic.txLog == old(nic.txLog) || nic.txLog == old(nic.txLog) + [frame])
      ensures nic.rxQueue == old(nic.rxQueue)
      ensures ret == TotalLen(sga) % 0x1_0000_0000
    {
      if !isBound {
        BindAny();
      }
      var peer := if defaultPeer.Some? then defaultPeer.value else addr;
      var dstMac := IpToMac(DPDK_TABLE, peer.ip, BROADCAST);
      var end;
      end, ret := BuildFrame(pkt, nic.mac, dstMac, boundAddr, peer, sga);
      var frame := pkt[..end];
      var sent := nic.TxBurst(frame);
    }

    /** `dpdk_recvfrom`: refill the backlog with one burst when it is
        empty, take its next frame and run it through the filter and the
        decoder.  `fetched` is how many frames this call's burst fetched
        and `consumed` the frame it took, if any; `v` is what it delivers
        and `ret` is the sum of the delivered segment lengths, 0 when
        nothing is delivered. */
    method RecvFrom() returns (ret: nat, v: Verdict, ghost fetched: nat, ghost consumed: Option<seq<u8>>)
      requires Valid()
      modifies this, nic, pktBuffer
      ensures Valid()
      ensures isBound == old(isBound) && boundAddr == old(boundAddr)
      ensures nextPort == old(nextPort) && defaultPeer == old(defaultPeer)
      ensures nic.txLog == old(nic.txLog)
      ensures fetched <= |old(nic.rxQueue)| && nic.rxQueue == old(nic.rxQueue)[fetched..]
      ensures old(numPackets) > 0 ==>
        && fetched == 0
        && pktBuffer[..] == old(pktBuffer[..])
        && consumed == Some(old(pktBuffer[pktIdx]))
        && pktIdx == old(pktIdx) + 1 && numPackets == old(numPackets) - 1
      ensures old(numPackets) == 0 ==>
        && fetched <= MAX_PKTS && fetched <= |old(nic.rxQueue)|
        && pktBuffer[..fetched] == old(nic.rxQueue)[..fetched]
        && (fetched == 0 ==> consumed == None && pktIdx == 0 && numPackets == 0)
        && (fetched > 0 ==> consumed == Some(old(nic.rxQueue)[0]) && pktIdx == 1 && numPackets == fetched - 1)
      ensures consumed == None ==> v == Dropped
      ensures consumed != None ==> v == Receive(consumed.value, isBound, boundAddr)
      ensures ret == (if v.Accepted? then TotalLen(v.sga) else 0)
    {
      fetched := 0;
      if numPackets == 0 {
        var n := nic.RxBurst(pktBuffer, MAX_PKTS);
        fetched := n;
        numPackets := n;
        pktIdx := 0;
      }
      if numPackets == 0 {
        consumed := None;
        return 0, Dropped, fetched, consumed;
      }
      var m := pktBuffer[pktIdx];
      consumed := Some(m);
      pktIdx := pktIdx + 1;
      numPackets := numPackets - 1;
      if |m| < HEADERS_LEN {
        return 0, Dropped, fetched, consumed;
      }
      if EtherType(m) != ETHER_TYPE_IPV4 {
        return 0, Dropped, fetched, consumed;
      }
      if isBound && IpDst(m) != boundAddr.ip {
        return 0, Dropped, fetched, consumed;
      }
      if IpProto(m) != IPPROTO_UDP {
        return 0, Dropped, fetched, consumed;
      }
      if isBound && UdpDstPort(m) != boundAddr.port {
        return 0, Dropped, fetched, consumed;
      }
      var sga, dataLen := DecodeFraming(m);
      if sga.None? {
        return 0, Dropped, fetched, consumed;
      }
      return dataLen, Accepted(sga.value, SockAddr(IpSrc(m), UdpSrcPort(m))), fetched, consumed;
    }
  }
}
