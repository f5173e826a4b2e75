/** What both queues put on the wire in front of a message: a 14-byte
    Ethernet header, a 20-byte IPv4 header without options (RFC 791) and an
    8-byte UDP header (RFC 768), 42 bytes in all; and the socket-address and
    scatter-gather values the queue API passes around. */
module Wire {
  import opened Bytes
  import opened AddressTable

  /** A `struct sockaddr_in` as the queues use it: `ip` is `sin_addr.s_addr`
      and `port` is `sin_port`, both as the host reads them from memory
      (that is, holding the network-order bytes). */
  datatype SockAddr = SockAddr(ip: u32, port: u16)

  /** A scatter-gather array: its segments in order (`num_bufs` is the
      number of segments, `bufs[i].len` the length of segment `i`). */
  type SgArray = seq<seq<u8>>

  /** The sum of the segment lengths. */
  function TotalLen(sga: SgArray): nat
  {
    if sga == [] then 0 else TotalLen(sga[..|sga| - 1]) + |sga[|sga| - 1]|
  }

  lemma TotalLenSnoc(sga: SgArray, i: nat)
    requires i < |sga|
    ensures TotalLen(sga[..i + 1]) == TotalLen(sga[..i]) + |sga[i]|
  {
    assert sga[..i + 1][..i] == sga[..i];
  }

  const ETHER_HDR_LEN: nat := 14
  const IPV4_HDR_LEN: nat := 20
  const UDP_HDR_LEN: nat := 8
  const HEADERS_LEN: nat := ETHER_HDR_LEN + IPV4_HDR_LEN + UDP_HDR_LEN

  const ETHER_TYPE_IPV4: u16 := 0x0800
  const IPPROTO_UDP: u8 := 17
  const IP_DEFTTL: u8 := 64
  /** IP_VERSION | IP_HDRLEN: version 4, five 32-bit header words. */
  const IP_VHL_DEF: u8 := 0x45
  /** `sizeof(struct udp_hdr) + sizeof(struct ipv4_hdr)`, the value both
      send paths store as the IPv4 total length. */
  const IP_TOTAL_LEN: u16 := 28

  /** `struct ether_hdr`: destination, source, then `htons(ETHER_TYPE_IPv4)`. */
  function EtherHeader(dst: MacAddr, src: MacAddr): (h: seq<u8>)
    ensures |h| == ETHER_HDR_LEN
  {
    dst + src + LE16(Htons(ETHER_TYPE_IPV4))
  }

  /** `struct ipv4_hdr` after `memset` to zero and the field stores of the
      send path: version/IHL, zero type of service, the stored total
      length, zero packet id and fragment offset, TTL 64, protocol UDP, the
      stored checksum, then source and destination address. */
  function Ipv4Header(totalLength: seq<u8>, checksum: seq<u8>, src: u32, dst: u32): (h: seq<u8>)
    requires |totalLength| == 2 && |checksum| == 2
    ensures |h| == IPV4_HDR_LEN
  {
    [IP_VHL_DEF, 0] + totalLength + [0, 0, 0, 0, IP_DEFTTL, IPPROTO_UDP] + checksum + LE32(src) + LE32(dst)
  }

  /** Writing a checksum into the zero checksum field (bytes 10 and 11) of
      an IPv4 header gives the header with that checksum. */
  lemma ChecksumField(t: seq<u8>, c: seq<u8>, src: u32, dst: u32)
    requires |t| == 2 && |c| == 2
    ensures var z := Ipv4Header(t, [0, 0], src, dst);
      && z[10] == 0 && z[11] == 0
      && Ipv4Header(t, c, src, dst) == z[..10] + c + z[12..]
  {
    var z := Ipv4Header(t, [0, 0], src, dst);
    var h := Ipv4Header(t, c, src, dst);
    assert forall k :: 0 <= k < 20 ==> h[k] == (z[..10] + c + z[12..])[k];
  }

  /** `struct udp_hdr`: source port, destination port, the stored datagram
      length and a zero checksum. */
  function UdpHeader(srcPort: u16, dstPort: u16, dgramLen: seq<u8>): (h: seq<u8>)
    requires |dgramLen| == 2
    ensures |h| == UDP_HDR_LEN
  {
    LE16(srcPort) + LE16(dstPort) + dgramLen + [0, 0]
  }

  // The fields the receive paths read, at their offsets in a frame.

  /** `ntohs(eth_hdr->ether_type)`. */
  function EtherType(f: seq<u8>): u16
    requires |f| >= HEADERS_LEN
  {
    Htons(ReadLE16(f[12..14]))
  }

  function IpProto(f: seq<u8>): u8
    requires |f| >= HEADERS_LEN
  {
    f[23]
  }

  function IpSrc(f: seq<u8>): u32
    requires |f| >= HEADERS_LEN
  {
    ReadLE32(f[26..30])
  }

  function IpDst(f: seq<u8>): u32
    requires |f| >= HEADERS_LEN
  {
    ReadLE32(f[30..34])
  }

  function UdpSrcPort(f: seq<u8>): u16
    requires |f| >= HEADERS_LEN
  {
    ReadLE16(f[34..36])
  }

  function UdpDstPort(f: seq<u8>): u16
    requires |f| >= HEADERS_LEN
  {
    ReadLE16(f[36..38])
  }

  /** The 42 header bytes of a frame from `src` to `dst`. */
  function Headers(dstMac: MacAddr, srcMac: MacAddr, src: SockAddr, dst: SockAddr,
                   totalLength: seq<u8>, checksum: seq<u8>, dgramLen: seq<u8>): (h: seq<u8>)
    requires |totalLength| == 2 && |checksum| == 2 && |dgramLen| == 2
    ensures |h| == HEADERS_LEN
  {
    EtherHeader(dstMac, srcMac) + Ipv4Header(totalLength, checksum, src.ip, dst.ip)
      + UdpHeader(src.port, dst.port, dgramLen)
  }

  /** The receive-side readers recover what the send side wrote, whatever
      follows the headers. */
  lemma ReadHeaders(dstMac: MacAddr, srcMac: MacAddr, src: SockAddr, dst: SockAddr,
                    totalLength: seq<u8>, checksum: seq<u8>, dgramLen: seq<u8>, rest: seq<u8>)
    requires |totalLength| == 2 && |checksum| == 2 && |dgramLen| == 2
    ensures var f := Headers(dstMac, srcMac, src, dst, totalLength, checksum, dgramLen) + rest;
      && |f| >= HEADERS_LEN
      && f[HEADERS_LEN..] == rest
      && f[..6] == dstMac && f[6..12] == srcMac
      && EtherType(f) == ETHER_TYPE_IPV4
      && IpProto(f) == IPPROTO_UDP
      && IpSrc(f) == src.ip && IpDst(f) == dst.ip
      && UdpSrcPort(f) == src.port && UdpDstPort(f) == dst.port
  {
    var f := Headers(dstMac, srcMac, src, dst, totalLength, checksum, dgramLen) + rest;
    var ip := Ipv4Header(totalLength, checksum, src.ip, dst.ip);
    var udp := UdpHeader(src.port, dst.port, dgramLen);
    assert f[..6] == dstMac;
    assert f[6..12] == srcMac;
    assert f[12..14] == LE16(Htons(ETHER_TYPE_IPV4));
    assert f[23] == ip[9] == IPPROTO_UDP;
    assert f[26..30] == ip[12..16] == LE32(src.ip);
    assert f[30..34] == ip[16..20] == LE32(dst.ip);
    assert f[34..36] == udp[0..2] == LE16(src.port);
    assert f[36..38] == udp[2..4] == LE16(dst.port);
    assert f[HEADERS_LEN..] == rest;
    HtonsInvolution(ETHER_TYPE_IPV4);
  }
}
