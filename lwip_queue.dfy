/** The UDP queue of the LWIP library OS (libos/liblwip/lwip-queue.cc):
    a bound address, the table of pending operations keyed by queue
    token, and the mbuf-chain codec of `pushto` and `popfrom`.

    A packet on this path is an mbuf chain: one header mbuf holding the
    42 header bytes, then one mbuf per segment.  `wait` repeats one-shot
    attempts until the token's operation is done. */
module LwipQueue {
  import opened Bytes
  import opened Options
  import opened AddressTable
  import opened InternetChecksum
  import opened Wire
  import opened Driver

  /** `ip_config` of the LWIP queue. */
  const LWIP_TABLE: seq<Mac2Ip> := [
    Mac2Ip([0x50, 0x6b, 0x4b, 0x48, 0xf8, 0xf2], 0x0c0c0c04),
    Mac2Ip([0x50, 0x6b, 0x4b, 0x48, 0xf8, 0xf3], 0x0c0c0c05)
  ]

  /** `ether_multicast`, what this `ip_to_mac` returns for an unknown IP. */
  const MULTICAST: MacAddr := [0x01, 0x1b, 0x19, 0x00, 0x00, 0x00]

  /** `ip_to_mac` of the LWIP queue returns the table MAC for a listed IP
      and the multicast address otherwise. */
  lemma LwipIpToMac(ip: u32)
    ensures ip == 0x0c0c0c04 ==> MacFor(LWIP_TABLE, ip, MULTICAST) == [0x50, 0x6b, 0x4b, 0x48, 0xf8, 0xf2]
    ensures ip == 0x0c0c0c05 ==> MacFor(LWIP_TABLE, ip, MULTICAST) == [0x50, 0x6b, 0x4b, 0x48, 0xf8, 0xf3]
    ensures ip != 0x0c0c0c04 && ip != 0x0c0c0c05 ==> MacFor(LWIP_TABLE, ip, MULTICAST) == MULTICAST
  {
    if ip == 0x0c0c0c04 {
      MacForHit(LWIP_TABLE, ip, MULTICAST, 0);
    } else if ip == 0x0c0c0c05 {
      MacForHit(LWIP_TABLE, ip, MULTICAST, 1);
    } else {
      MacForMiss(LWIP_TABLE, ip, MULTICAST);
    }
  }

  // ---------------------------------------------------------------------
  // The header mbuf `pushto` fills.

  /** The IPv4 header of `pushto` after `memset` and the field stores,
      with its checksum field still zero: the total length is stored as
      `htons(28)`. */
  function ZeroedIpHeader(src: u32, dst: u32): (z: seq<u8>)
    ensures |z| == IPV4_HDR_LEN && z[10] == 0 && z[11] == 0
  {
    ChecksumField(LE16(Htons(IP_TOTAL_LEN)), [0, 0], src, dst);
    Ipv4Header(LE16(Htons(IP_TOTAL_LEN)), [0, 0], src, dst)
  }

  /** `ip_sum` over that header. */
  function LwipIpChecksum(src: u32, dst: u32): u16
  {
    Checksum(ZeroedIpHeader(src, dst))
  }

  /** The header mbuf as written: the checksum is stored as
      `htons(ip_sum(..))`. */
  function LwipHeadersAsWritten(srcMac: MacAddr, dstMac: MacAddr, src: SockAddr, dst: SockAddr): seq<u8>
  {
    Headers(dstMac, srcMac, src, dst, LE16(Htons(IP_TOTAL_LEN)),
            LE16(Htons(LwipIpChecksum(src.ip, dst.ip))), LE16(Htons(UDP_HDR_LEN as u16)))
  }

  /** The header mbuf with the checksum stored as `ip_sum` returned it,
      the store that makes the header verify (and the one
      `dpdk_sendto` uses). */
  function LwipHeaders(srcMac: MacAddr, dstMac: MacAddr, src: SockAddr, dst: SockAddr): seq<u8>
  {
    Headers(dstMac, srcMac, src, dst, LE16(Htons(IP_TOTAL_LEN)),
            LE16(LwipIpChecksum(src.ip, dst.ip)), LE16(Htons(UDP_HDR_LEN as u16)))
  }

  /** The IPv4 header inside the 42 header bytes is the zeroed header
      with the stored checksum in bytes 10 and 11. */
  lemma IpHeaderOf(srcMac: MacAddr, dstMac: MacAddr, src: SockAddr, dst: SockAddr, c: seq<u8>)
    requires |c| == 2
    ensures var h := Headers(dstMac, srcMac, src, dst, LE16(Htons(IP_TOTAL_LEN)), c, LE16(Htons(UDP_HDR_LEN as u16)));
      var z := ZeroedIpHeader(src.ip, dst.ip);
      h[ETHER_HDR_LEN..ETHER_HDR_LEN + IPV4_HDR_LEN] == z[..10] + c + z[12..]
  {
    ChecksumField(LE16(Htons(IP_TOTAL_LEN)), c, src.ip, dst.ip);
  }

  /** As written, the IPv4 header of a pushed packet verifies exactly
      when the checksum's two bytes happen to be equal. */
  lemma AsWrittenChecksumVerifiesOnlyIfSymmetric(srcMac: MacAddr, dstMac: MacAddr, src: SockAddr, dst: SockAddr)
    ensures var h := LwipHeadersAsWritten(srcMac, dstMac, src, dst);
      var c := LwipIpChecksum(src.ip, dst.ip);
      Checksum(h[ETHER_HDR_LEN..ETHER_HDR_LEN + IPV4_HDR_LEN]) == 0 <==> c / 256 == c % 256
  {
    var c := LwipIpChecksum(src.ip, dst.ip);
    IpHeaderOf(srcMac, dstMac, src, dst, LE16(Htons(c)));
    SwappedChecksumVerifies(ZeroedIpHeader(src.ip, dst.ip), 10);
  }

  /** The word sum `ip_sum` folds for a push from `src` to `dst`: the
      fixed words 0x0045 (version and header length), 0x1c00 (the stored
      total length) and 0x1140 (TTL and protocol), and the two halves of
      each address. */
  lemma ZeroedHeaderSum(src: u32, dst: u32)
    ensures WordSum(ZeroedIpHeader(src, dst))
         == 0x0045 + 0x1c00 + 0x1140 + src % 0x10000 + src / 0x10000 + dst % 0x10000 + dst / 0x10000
  {
    var tl := LE16(Htons(IP_TOTAL_LEN));
    var a: seq<u8> := [IP_VHL_DEF, 0];
    var b: seq<u8> := [0, 0, 0, 0, IP_DEFTTL, IPPROTO_UDP];
    var c: seq<u8> := [0, 0];
    assert WordSum(a) == 0x0045 by { WordSumPair(a); }
    assert WordSum(tl) == 0x1c00 by { WordSumLE16(Htons(IP_TOTAL_LEN)); }
    assert WordSum(b) == 0x1140 by {
      WordSumPush([0, 0, 0, 0], IP_DEFTTL, IPPROTO_UDP);
      assert [0, 0, 0, 0] + [IP_DEFTTL, IPPROTO_UDP] == b;
      WordSumPush([0, 0], 0, 0);
      assert [0, 0] + [0, 0] == [0, 0, 0, 0];
      WordSumPair(c);
    }
    assert WordSum(c) == 0 by { WordSumPair(c); }
    WordSumLE32(src);
    WordSumLE32(dst);
    WordSumConcat(a, tl);
    WordSumConcat(a + tl, b);
    WordSumConcat(a + tl + b, c);
    WordSumConcat(a + tl + b + c, LE32(src));
    WordSumConcat(a + tl + b + c + LE32(src), LE32(dst));
  }

  /** From the table's first address to its second (`s_addr` values
      0x0c0c0c04 and 0x0c0c0c05) the checksum is 0xa259, so the header as
      written does not verify. */
  lemma AsWrittenChecksumFails(srcMac: MacAddr, dstMac: MacAddr, srcPort: u16, dstPort: u16)
    ensures LwipIpChecksum(0x0c0c0c04, 0x0c0c0c05) == 0xa259
    ensures var h := LwipHeadersAsWritten(srcMac, dstMac, SockAddr(0x0c0c0c04, srcPort), SockAddr(0x0c0c0c05, dstPort));
      Checksum(h[ETHER_HDR_LEN..ETHER_HDR_LEN + IPV4_HDR_LEN]) != 0
  {
    var c := LwipIpChecksum(0x0c0c0c04, 0x0c0c0c05);
    assert c == 0xa259 by {
      ZeroedHeaderSum(0x0c0c0c04, 0x0c0c0c05);
      assert Fold(0x5da6) == 0x5da6;
    }
    assert c / 256 == 0xa2 && c % 256 == 0x59;
    AsWrittenChecksumVerifiesOnlyIfSymmetric(srcMac, dstMac, SockAddr(0x0c0c0c04, srcPort), SockAddr(0x0c0c0c05, dstPort));
  }

  /** Whatever two checksum bytes `cs` are stored, the receive-side
      readers find what `pushto` stored: the MACs, the network-order total
      length 28 and datagram length 8, TTL 64, protocol UDP, the
      addresses and ports, and `cs` in bytes 24 and 25. */
  lemma LwipFields(srcMac: MacAddr, dstMac: MacAddr, src: SockAddr, dst: SockAddr, cs: seq<u8>)
    requires |cs| == 2
    ensures var h := Headers(dstMac, srcMac, src, dst, LE16(Htons(IP_TOTAL_LEN)), cs, LE16(Htons(UDP_HDR_LEN as u16)));
      && |h| == HEADERS_LEN
      && h[..6] == dstMac && h[6..12] == srcMac
      && EtherType(h) == ETHER_TYPE_IPV4
      && h[16..18] == BE16(IP_TOTAL_LEN)
      && h[22] == IP_DEFTTL && IpProto(h) == IPPROTO_UDP
      && h[24..26] == cs
      && IpSrc(h) == src.ip && IpDst(h) == dst.ip
      && UdpSrcPort(h) == src.port && UdpDstPort(h) == dst.port
      && h[38..40] == BE16(UDP_HDR_LEN as u16)
  {
    var tl, dl := LE16(Htons(IP_TOTAL_LEN)), LE16(Htons(UDP_HDR_LEN as u16));
    var h := Headers(dstMac, srcMac, src, dst, tl, cs, dl);
    ReadHeaders(dstMac, srcMac, src, dst, tl, cs, dl, []);
    assert h + [] == h;
    var ip := Ipv4Header(tl, cs, src.ip, dst.ip);
    var udp := UdpHeader(src.port, dst.port, dl);
    assert h[ETHER_HDR_LEN..ETHER_HDR_LEN + IPV4_HDR_LEN] == ip;
    assert h[16..18] == ip[2..4] == tl;
    assert h[22] == ip[8];
    assert h[24..26] == ip[10..12] == cs;
    assert h[38..40] == udp[4..6] == dl;
  }

  /** The header mbuf as written: every field as `pushto` means it, the
      checksum in network byte order. */
  lemma LwipHeadersAsWrittenLayout(srcMac: MacAddr, dstMac: MacAddr, src: SockAddr, dst: SockAddr)
    ensures var h := LwipHeadersAsWritten(srcMac, dstMac, src, dst);
      && |h| == HEADERS_LEN
      && h[..6] == dstMac && h[6..12] == srcMac
      && EtherType(h) == ETHER_TYPE_IPV4
      && h[16..18] == BE16(IP_TOTAL_LEN)
      && h[22] == IP_DEFTTL && IpProto(h) == IPPROTO_UDP
      && h[24..26] == BE16(LwipIpChecksum(src.ip, dst.ip))
      && IpSrc(h) == src.ip && IpDst(h) == dst.ip
      && UdpSrcPort(h) == src.port && UdpDstPort(h) == dst.port
      && h[38..40] == BE16(UDP_HDR_LEN as u16)
  {
    LwipFields(srcMac, dstMac, src, dst, LE16(Htons(LwipIpChecksum(src.ip, dst.ip))));
  }

  /** With the checksum stored unswapped, every field is the same and
      every pushed header verifies. */
  lemma LwipHeadersLayout(srcMac: MacAddr, dstMac: MacAddr, src: SockAddr, dst: SockAddr)
    ensures var h := LwipHeaders(srcMac, dstMac, src, dst);
      && |h| == HEADERS_LEN
      && h[..6] == dstMac && h[6..12] == srcMac
      && EtherType(h) == ETHER_TYPE_IPV4
      && h[16..18] == BE16(IP_TOTAL_LEN)
      && h[22] == IP_DEFTTL && IpProto(h) == IPPROTO_UDP
      && h[24..26] == LE16(LwipIpChecksum(src.ip, dst.ip))
      && IpSrc(h) == src.ip && IpDst(h) == dst.ip
      && UdpSrcPort(h) == src.port && UdpDstPort(h) == dst.port
      && h[38..40] == BE16(UDP_HDR_LEN as u16)
      && Checksum(h[ETHER_HDR_LEN..ETHER_HDR_LEN + IPV4_HDR_LEN]) == 0
  {
    var c := LwipIpChecksum(src.ip, dst.ip);
    LwipFields(srcMac, dstMac, src, dst, LE16(c));
    IpHeaderOf(srcMac, dstMac, src, dst, LE16(c));
    ChecksumVerifies(ZeroedIpHeader(src.ip, dst.ip), 10);
  }

  /** The two stores differ in the checksum's two bytes only. */
  lemma AsWrittenDiffersOnlyInChecksum(srcMac: MacAddr, dstMac: MacAddr, src: SockAddr, dst: SockAddr)
    ensures var w, h := LwipHeadersAsWritten(srcMac, dstMac, src, dst), LwipHeaders(srcMac, dstMac, src, dst);
      && |w| == |h| == HEADERS_LEN
      && w[..24] == h[..24] && w[26..] == h[26..]
      && w[24] == h[25] && w[25] == h[24]
  {
    var c := LwipIpChecksum(src.ip, dst.ip);
    var eth := EtherHeader(dstMac, srcMac);
    var udp := UdpHeader(src.port, dst.port, LE16(Htons(UDP_HDR_LEN as u16)));
    var z := ZeroedIpHeader(src.ip, dst.ip);
    IpHeaderOf(srcMac, dstMac, src, dst, LE16(c));
    IpHeaderOf(srcMac, dstMac, src, dst, LE16(Htons(c)));
    var w, h := LwipHeadersAsWritten(srcMac, dstMac, src, dst), LwipHeaders(srcMac, dstMac, src, dst);
    assert w[..ETHER_HDR_LEN] == eth == h[..ETHER_HDR_LEN];
    assert w[ETHER_HDR_LEN + IPV4_HDR_LEN..] == udp == h[ETHER_HDR_LEN + IPV4_HDR_LEN..];
    assert w[..24] == w[..ETHER_HDR_LEN] + w[ETHER_HDR_LEN..ETHER_HDR_LEN + IPV4_HDR_LEN][..10];
    assert h[..24] == h[..ETHER_HDR_LEN] + h[ETHER_HDR_LEN..ETHER_HDR_LEN + IPV4_HDR_LEN][..10];
    assert w[26..] == w[ETHER_HDR_LEN..ETHER_HDR_LEN + IPV4_HDR_LEN][12..] + w[ETHER_HDR_LEN + IPV4_HDR_LEN..];
    assert h[26..] == h[ETHER_HDR_LEN..ETHER_HDR_LEN + IPV4_HDR_LEN][12..] + h[ETHER_HDR_LEN + IPV4_HDR_LEN..];
    HtonsInvolution(c);
    assert LE16(c) == BE16(Htons(c)) == [c % 256, c / 256];
    assert w[24..26] == BE16(c) && h[24..26] == LE16(c);
  }

  // ---------------------------------------------------------------------
  // Mbuf chains.

  /** An mbuf chain as the head mbuf describes it: the data of each mbuf
      in `next` order, `nb_segs` and `pkt_len`. */
  datatype Packet = Packet(segs: seq<seq<u8>>, nbSegs: int, pktLen: int)

  /** A chain the device can carry: it has its header mbuf, which holds
      at least the 42 header bytes, `nb_segs` counts its mbufs, every
      `data_len` fits its 16 bits and `pkt_len` is the header mbuf's
      length plus the others'. */
  predicate WellFormed(p: Packet)
  {
    && 1 <= |p.segs| < 0x1_0000
    && |p.segs[0]| >= HEADERS_LEN
    && p.nbSegs == |p.segs|
    && (forall i :: 0 <= i < |p.segs| ==> |p.segs[i]| < 0x1_0000)
    && p.pktLen == |p.segs[0]| + TotalLen(p.segs[1..])
  }

  type Chain = p: Packet | WellFormed(p)
    witness Packet([seq(HEADERS_LEN, _ => 0)], 1, HEADERS_LEN)

  /** What `pushto` can send: `nb_segs = 1 + num_bufs` must fit its 16
      bits and every segment's length the 16-bit `data_len` of its
      mbuf. */
  predicate ChainFits(sga: SgArray)
  {
    && |sga| < 0xFFFF
    && forall i :: 0 <= i < |sga| ==> |sga[i]| < 0x1_0000
  }

  /** The segments `popfrom` copies out of a chain: every mbuf after the
      header mbuf. */
  function Segments(p: Chain): SgArray
  {
    p.segs[1..]
  }

  /** The address `popfrom` reports: IP source and UDP source port of the
      header mbuf. */
  function Sender(p: Chain): SockAddr
  {
    SockAddr(IpSrc(p.segs[0]), UdpSrcPort(p.segs[0]))
  }

  lemma {:induction false} TotalLenBound(sga: SgArray, bound: nat)
    requires forall i :: 0 <= i < |sga| ==> |sga[i]| <= bound
    ensures TotalLen(sga) <= |sga| * bound
    decreases |sga|
  {
    if sga != [] {
      var init := sga[..|sga| - 1];
      forall i | 0 <= i < |init| ensures |init[i]| <= bound {
        assert init[i] == sga[i];
      }
      TotalLenBound(init, bound);
    }
  }

  /** In a chain whose first mbuf is the header mbuf, `pkt_len` is the
      header length plus the segment lengths. */
  lemma {:induction false} TotalLenHead(hdr: seq<u8>, sga: SgArray)
    ensures TotalLen([hdr] + sga) == |hdr| + TotalLen(sga)
    decreases |sga|
  {
    if sga == [] {
      assert [hdr] + sga == [hdr];
      assert [hdr][..0] == [];
    } else {
      var init := sga[..|sga| - 1];
      TotalLenHead(hdr, init);
      assert ([hdr] + sga)[..|sga|] == [hdr] + init;
    }
  }

  /** The chain `pushto` sends for `hdr` and `sga`. */
  function PushChain(hdr: seq<u8>, sga: SgArray): (p: Packet)
    requires |hdr| == HEADERS_LEN && ChainFits(sga)
    ensures WellFormed(p) && p.pktLen == TotalLen(p.segs)
  {
    var p := Packet([hdr] + sga, 1 + |sga|, HEADERS_LEN + TotalLen(sga));
    assert p.segs[1..] == sga;
    TotalLenHead(hdr, sga);
    assert forall i :: 1 <= i < |p.segs| ==> p.segs[i] == sga[i - 1];
    p
  }

  /** The chain codec round trip: what `popfrom` takes out of a chain
      `pushto` built is the pushed segments, their total length and the
      pusher's bound address. */
  lemma ChainRoundTrip(srcMac: MacAddr, dstMac: MacAddr, src: SockAddr, dst: SockAddr, sga: SgArray)
    requires ChainFits(sga)
    ensures var p: Chain := PushChain(LwipHeadersAsWritten(srcMac, dstMac, src, dst), sga);
      && Segments(p) == sga
      && Sender(p) == src
      && p.nbSegs == 1 + |sga|
      && p.pktLen == HEADERS_LEN + TotalLen(sga)
  {
    var h := LwipHeadersAsWritten(srcMac, dstMac, src, dst);
    LwipHeadersAsWrittenLayout(srcMac, dstMac, src, dst);
    var p: Chain := PushChain(h, sga);
    assert p.segs[0] == h;
    assert p.segs[1..] == sga;
  }

  // ---------------------------------------------------------------------
  // The pending-operation table.

  /** A queue token; `IS_PUSH(qt)` reads its direction. */
  datatype QToken = QToken(id: nat, isPush: bool)

  /** `PendingRequest{isDone, res, addr, sga}`: the address and segments
      are those of the call that created the entry. */
  datatype PendingRequest = PendingRequest(isDone: bool, res: int, addr: SockAddr, sga: SgArray)

  /** The lookup-or-insert at the top of `pushto` and `popfrom`: an
      absent token gets `initial`; a present entry is kept as it is. */
  function GetOrCreate(pending: map<QToken, PendingRequest>, qt: QToken, initial: PendingRequest)
    : (m: map<QToken, PendingRequest>)
    ensures qt in m && m.Keys == pending.Keys + {qt}
    ensures m[qt] == if qt in pending then pending[qt] else initial
    ensures forall t :: t in pending && t != qt ==> m[t] == pending[t]
  {
    if qt in pending then pending else pending[qt := initial]
  }

  /** The table after an attempt completed the operation of `qt` with
      result `res`. */
  function Complete(pending: map<QToken, PendingRequest>, qt: QToken, res: int): (m: map<QToken, PendingRequest>)
    requires qt in pending
    ensures m.Keys == pending.Keys
    ensures m[qt].isDone && m[qt].res == res
    ensures m[qt].addr == pending[qt].addr && m[qt].sga == pending[qt].sga
    ensures forall t :: t in pending && t != qt ==> m[t] == pending[t]
  {
    pending[qt := pending[qt].(isDone := true, res := res)]
  }

  /** The header mbuf of `pushto` from `src` (the bound address) to
      `dst`: both MACs from the table, `ip_sum` over the zeroed IPv4
      header, the checksum stored into its field. */
  method BuildHeaderMbuf(src: SockAddr, dst: SockAddr) returns (hdr: seq<u8>)
    ensures hdr == LwipHeadersAsWritten(MacFor(LWIP_TABLE, src.ip, MULTICAST), MacFor(LWIP_TABLE, dst.ip, MULTICAST), src, dst)
  {
    var srcMac := IpToMac(LWIP_TABLE, src.ip, MULTICAST);
    var dstMac := IpToMac(LWIP_TABLE, dst.ip, MULTICAST);
    var z := ZeroedIpHeader(src.ip, dst.ip);
    assert z[..2 * WordCount(IPV4_HDR_LEN)] == z;
    var c := IpSum(z, IPV4_HDR_LEN);
    hdr := EtherHeader(dstMac, srcMac) + (z[..10] + LE16(Htons(c)) + z[12..])
         + UdpHeader(src.port, dst.port, LE16(Htons(UDP_HDR_LEN as u16)));
    ChecksumField(LE16(Htons(IP_TOTAL_LEN)), LE16(Htons(c)), src.ip, dst.ip);
  }

  /** The segment loop of `pushto`: `cur` is the last mbuf of the chain
      so far; each segment gets an mbuf of its own, `nb_segs` counts
      them and `data_len` sums their lengths. */
  method BuildChain(hdr: seq<u8>, sga: SgArray) returns (pkt: Chain, dataLen: nat)
    requires |hdr| == HEADERS_LEN && ChainFits(sga)
    ensures pkt == PushChain(hdr, sga) && dataLen == TotalLen(sga)
  {
    var segs := [hdr];
    dataLen := 0;
    var nbSegs := 1;
    var i := 0;
    while i < |sga|
      invariant 0 <= i <= |sga|
      invariant segs == [hdr] + sga[..i]
      invariant dataLen == TotalLen(sga[..i])
      invariant nbSegs == 1 + i
    {
      TotalLenSnoc(sga, i);
      assert sga[..i + 1] == sga[..i] + [sga[i]];
      segs := segs + [sga[i]];
      dataLen := dataLen + |sga[i]|;
      nbSegs := nbSegs + 1;
      i := i + 1;
    }
    assert sga[..i] == sga;
    // `data_len` is a uint32_t and `pkt_len` 42 more: neither wraps.
    TotalLenBound(sga, 0xFFFF);
    assert dataLen < 0x1_0000_0000 - HEADERS_LEN;
    pkt := PushChain(hdr, sga);
    assert pkt == Packet(segs, nbSegs, HEADERS_LEN + dataLen);
  }

  /** The segment loop of `popfrom`: `num_bufs = nb_segs - 1`, and `cur`
      walks from `m->next`, each mbuf's data becoming one segment. */
  method CopySegments(p: Chain) returns (sga: SgArray, dataLen: nat)
    ensures sga == Segments(p) && dataLen == TotalLen(sga)
  {
    sga := [];
    dataLen := 0;
    var i := 0;
    while i < p.nbSegs - 1
      invariant 0 <= i <= p.nbSegs - 1
      invariant |sga| == i && sga == p.segs[1..i + 1]
      invariant dataLen == TotalLen(sga)
    {
      var cur := p.segs[i + 1];
      assert p.segs[1..i + 2] == sga + [cur];
      TotalLenSnoc(sga + [cur], i);
      assert (sga + [cur])[..i] == sga;
      sga := sga + [cur];
      dataLen := dataLen + |cur|;
      i := i + 1;
    }
  }

  class Queue {
    /** The device of `port_id`. */
    const nic: Nic<Chain>
    var isBound: bool
    var boundAddr: SockAddr
    var pending: map<QToken, PendingRequest>

    /** A queue that is not yet bound and has nothing pending; the bound
        address starts out zero. */
    constructor (nic: Nic<Chain>)
      ensures this.nic == nic && !isBound && boundAddr == SockAddr(0, 0) && pending == map[]
    {
      this.nic := nic;
      isBound := false;
      boundAddr := SockAddr(0, 0);
      pending := map[];
    }

    /** `LWIPQueue::bind`: the address is stored as given. */
    method Bind(addr: SockAddr)
      modifies this
      ensures isBound && boundAddr == addr
      ensures pending == old(pending)
    {
      boundAddr := addr;
      isBound := true;
    }

    /** `LWIPQueue::pushto`: builds the header mbuf and one mbuf per
        segment, hands the chain to the device (whether or not the device
        takes it), and completes the token's entry with the total
        length. */
    method PushTo(qt: QToken, sga: SgArray, addr: SockAddr) returns (ret: int)
      requires ChainFits(sga)
      modifies this, nic
      ensures ret == TotalLen(sga)
      ensures pending == Complete(GetOrCreate(old(pending), qt, PendingRequest(false, 0, addr, sga)), qt, ret)
      ensures isBound == old(isBound) && boundAddr == old(boundAddr)
      ensures nic.rxQueue == old(nic.rxQueue)
      ensures var p := PushChain(LwipHeadersAsWritten(MacFor(LWIP_TABLE, boundAddr.ip, MULTICAST),
                                                      MacFor(LWIP_TABLE, addr.ip, MULTICAST), boundAddr, addr), sga);
        nic.txLog == old(nic.txLog) || nic.txLog == old(nic.txLog) + [p]
    {
      if qt !in pending {
        pending := pending[qt := PendingRequest(false, 0, addr, sga)];
      }
      var hdr := BuildHeaderMbuf(boundAddr, addr);
      var pkt, dataLen := BuildChain(hdr, sga);
      var sent := nic.TxBurst(pkt);
      pending := pending[qt := pending[qt].(isDone := true, res := dataLen)];
      ret := dataLen;
    }

    /** `LWIPQueue::popfrom`: takes at most one chain from the device.
        With none, it returns 0 and leaves the entry as it was (not done
        if it was just created).  With one, it copies every mbuf after the
        header mbuf out as a segment, reports the sender, and completes the
        entry with the total length.  `sga` and `addr` are what the
        caller's buffers held before the call; `sgaOut` and `from` what
        they hold after it. */
    method PopFrom(qt: QToken, sga: SgArray, addr: SockAddr)
      returns (ret: int, sgaOut: SgArray, from: SockAddr, ghost got: Option<Chain>)
      modifies this, nic
      ensures isBound == old(isBound) && boundAddr == old(boundAddr)
      ensures nic.txLog == old(nic.txLog)
      ensures got.None? ==>
        && ret == 0 && sgaOut == sga && from == addr
        && nic.rxQueue == old(nic.rxQueue)
        && pending == GetOrCreate(old(pending), qt, PendingRequest(false, 0, addr, sga))
      ensures got.Some? ==>
        && old(nic.rxQueue) != [] && got.value == old(nic.rxQueue)[0]
        && nic.rxQueue == old(nic.rxQueue)[1..]
        && sgaOut == Segments(got.value) && from == Sender(got.value)
        && ret == TotalLen(sgaOut)
        && pending == Complete(GetOrCreate(old(pending), qt, PendingRequest(false, 0, addr, sga)), qt, ret)
    {
      if qt !in pending {
        pending := pending[qt := PendingRequest(false, 0, addr, sga)];
      }
      var m := nic.RxOne();
      got := m;
      if m.None? {
        return 0, sga, addr, got;
      }
      var dataLen;
      sgaOut, dataLen := CopySegments(m.value);
      from := SockAddr(IpSrc(m.value.segs[0]), UdpSrcPort(m.value.segs[0]));
      pending := pending[qt := pending[qt].(isDone := true, res := dataLen)];
      ret := dataLen;
    }

    /** The chain a push of the entry `req` sends from the bound address. */
    ghost function PushedChain(req: PendingRequest): Chain
      requires ChainFits(req.sga)
      reads this
    {
      PushChain(LwipHeadersAsWritten(MacFor(LWIP_TABLE, boundAddr.ip, MULTICAST),
                                     MacFor(LWIP_TABLE, req.addr.ip, MULTICAST), boundAddr, req.addr), req.sga)
    }

    /** `LWIPQueue::wait`: the token must have an entry.  A push is
        retried with the entry's own segments and address until done,
        which the first attempt achieves; a pop is retried into `sga`
        until a chain arrives, at most `fuel` times here.  The result is
        the entry's `res`, or None when the attempts ran out.  A pop that
        completes here has taken the first chain the device held and
        copied its segments out; one that runs out has changed nothing. */
    method Wait(qt: QToken, sga: SgArray, fuel: nat) returns (r: Option<int>, sgaOut: SgArray)
      requires qt in pending
      requires qt.isPush && !pending[qt].isDone ==> ChainFits(pending[qt].sga)
      modifies this, nic
      ensures isBound == old(isBound) && boundAddr == old(boundAddr)
      ensures qt in pending && pending.Keys == old(pending).Keys
      ensures forall t :: t in old(pending) && t != qt ==> pending[t] == old(pending)[t]
      ensures r.Some? <==> pending[qt].isDone
      ensures r.Some? ==> r.value == pending[qt].res
      ensures old(pending)[qt].isDone ==>
        r == Some(old(pending)[qt].res) && pending == old(pending) && sgaOut == sga
        && nic.rxQueue == old(nic.rxQueue) && nic.txLog == old(nic.txLog)
      ensures qt.isPush ==> r == Some(if old(pending)[qt].isDone then old(pending)[qt].res else TotalLen(old(pending)[qt].sga))
      ensures qt.isPush ==> nic.rxQueue == old(nic.rxQueue) && sgaOut == sga
      ensures qt.isPush && !old(pending)[qt].isDone ==>
        nic.txLog == old(nic.txLog) || nic.txLog == old(nic.txLog) + [old(PushedChain(pending[qt]))]
      ensures !qt.isPush ==> nic.txLog == old(nic.txLog)
      ensures !qt.isPush && r.None? ==>
        pending == old(pending) && sgaOut == sga && nic.rxQueue == old(nic.rxQueue)
      ensures !qt.isPush && r.Some? && !old(pending)[qt].isDone ==>
        && old(nic.rxQueue) != [] && nic.rxQueue == old(nic.rxQueue)[1..]
        && sgaOut == Segments(old(nic.rxQueue)[0]) && r.value == TotalLen(sgaOut)
    {
      sgaOut := sga;
      if qt.isPush {
        while !pending[qt].isDone
          invariant isBound == old(isBound) && boundAddr == old(boundAddr)
          invariant qt in pending && pending.Keys == old(pending).Keys
          invariant forall t :: t in old(pending) && t != qt ==> pending[t] == old(pending)[t]
          invariant !pending[qt].isDone ==> pending == old(pending) && nic.txLog == old(nic.txLog)
          invariant pending[qt].isDone ==>
            pending[qt].res == if old(pending)[qt].isDone then old(pending)[qt].res else TotalLen(old(pending)[qt].sga)
          invariant old(pending)[qt].isDone ==>
            pending == old(pending) && nic.txLog == old(nic.txLog)
          invariant pending[qt].isDone && !old(pending)[qt].isDone ==>
            nic.txLog == old(nic.txLog) || nic.txLog == old(nic.txLog) + [old(PushedChain(pending[qt]))]
          invariant nic.rxQueue == old(nic.rxQueue)
          decreases if pending[qt].isDone then 0 else 1
        {
          var req := pending[qt];
          var _ := PushTo(qt, req.sga, req.addr);
        }
        r := Some(pending[qt].res);
      } else {
        var left := fuel;
        while !pending[qt].isDone && left > 0
          invariant isBound == old(isBound) && boundAddr == old(boundAddr)
          invariant qt in pending && pending.Keys == old(pending).Keys
          invariant forall t :: t in old(pending) && t != qt ==> pending[t] == old(pending)[t]
          invariant nic.txLog == old(nic.txLog)
          invariant old(pending)[qt].isDone ==>
            pending == old(pending) && sgaOut == sga && nic.rxQueue == old(nic.rxQueue)
          invariant !pending[qt].isDone ==>
            pending == old(pending) && sgaOut == sga && nic.rxQueue == old(nic.rxQueue)
          invariant pending[qt].isDone && !old(pending)[qt].isDone ==>
            && old(nic.rxQueue) != [] && nic.rxQueue == old(nic.rxQueue)[1..]
            && sgaOut == Segments(old(nic.rxQueue)[0]) && pending[qt].res == TotalLen(sgaOut)
          decreases left
        {
          var req := pending[qt];
          var _, s, _, _ := PopFrom(qt, sga, req.addr);
          sgaOut := s;
          left := left - 1;
        }
        r := if pending[qt].isDone then Some(pending[qt].res) else None;
      }
    }
  }
}
