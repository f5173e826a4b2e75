# Demikernel UDP queues, scheduler bookkeeping and ICMPv4 echo accessors in Dafny

This project models four sequential pieces of the Demikernel library OS and
proves properties about each model.

- **The UDP endpoint of the DPDK echo application** (`dpdk_common.cpp`). It
  covers:
  - the static IP/MAC table and its lookups;
  - the `ip_sum` Internet checksum;
  - `dpdk_bind`, with its ephemeral-port counter that wraps;
  - `dpdk_connect` and `dpdk_close`;
  - `dpdk_sendto`, which writes Ethernet, IPv4 and UDP headers into a packet
    buffer and then the application framing: a count, then a length and the
    bytes of each segment;
  - `dpdk_recvfrom`, with its burst backlog, four-way accept filter and
    framing decoder.

  The globals of the source are the fields of one `DpdkEcho.Endpoint`.
- **The LWIP queue** (`lwip-queue.cc`). It covers:
  - the table of pending operations keyed by queue token, with its
    get-or-create rule;
  - `bind`;
  - one-shot `pushto` and `popfrom` attempts. `pushto` builds a chain of one
    header mbuf and one mbuf per segment, and `popfrom` splits a chain back
    into segments;
  - `wait`, which repeats attempts until the token's operation is done.
- **The cooperative scheduler's bookkeeping** (`scheduler.rs`). It covers:
  - `iter_set_bits`;
  - the key-to-page split;
  - `insert`, which grows the page vector;
  - `take`, `from_raw_handle`, `into_raw` and the handle's `Drop`;
  - `poll`, over a slab of futures and per-page notified, completed and
    dropped bitsets.
- **The ICMPv4 echo accessors** (`echo.rs`). They read and write the
  identifier and sequence number, big-endian in payload bytes [0, 2) and
  [2, 4) as in the Echo message of RFC 792, and map between the echo type
  and the ICMP type.

The host is modelled as little-endian, which is what DPDK on x86 is.

- A C store of a multi-byte field writes its bytes least significant first;
  `htons` swaps two bytes. This is `Bytes.LE16`/`LE32`/`LE64` and
  `Bytes.Htons`.
- Socket addresses hold `s_addr` and `sin_port` as the host reads them from
  memory.
- The network device is `Driver.Nic`. Its receive queue and transmit log
  stand in for `rte_eth_rx_burst` and `rte_eth_tx_burst`.
- How many packets a burst returns, and whether a transmit is accepted, are
  left open. They are chosen nondeterministically, and every contract holds
  for every choice.

**Where the model follows the code rather than the design.**

- `dpdk_sendto` stores the IPv4 total length as the host value 28, not in
  network order and not counting the payload (`dpdk_common.cpp:488`). It
  stores the UDP datagram length as the host value 8 (`dpdk_common.cpp:502`).
  `pushto` stores `htons(28)` and `htons(8)` (`lwip-queue.cc:333-334`,
  `lwip-queue.cc:342`). Each model keeps its own source's bytes.
- The two send paths keep the two stores listed under Findings. `dpdk_sendto`
  writes only the low byte of the count and of each length into their 8-byte
  slots, and the other seven bytes of each slot keep what the packet buffer
  held (`DpdkFraming.FramingOver`). `pushto` stores the checksum byte-swapped
  (`LwipQueue.LwipHeadersAsWritten`). `DpdkEcho.Endpoint.SendTo`,
  `LwipQueue.Queue.PushTo` and `LwipQueue.Queue.Wait` promise exactly these
  bytes. The intended stores (`DpdkEcho.DpdkFrame`, `LwipQueue.LwipHeaders`)
  are modelled beside them, with their properties proved, as the reference
  the findings are measured against.
- The LWIP table holds 0x0c0c0c04 and 0x0c0c0c05. Its comments call these
  12.12.12.4 and 12.12.12.5. The lookups compare them with `s_addr`, so on
  this host they match the network addresses 4.12.12.12 and 5.12.12.12. The
  DPDK table stores 0x040c0c0c, which is 12.12.12.4. The model keeps the
  values as written.
- A C `assert` is taken to be compiled out (`NDEBUG`), as in a release build.
  The `num_packets == 1` assertion of `dpdk_recvfrom` and the header
  assertions of `popfrom` therefore check nothing. The exception is `wait`'s
  `assert(it != pending.end())`, which guards a lookup the rest of the
  function depends on; it is a precondition of `LwipQueue.Queue.Wait`.
- A Rust `assert!`, `unwrap` or index panics in every build, so each becomes
  a precondition. Examples are `take`'s "not dropped" check, `into_raw`'s
  key, and the page index in `from_raw_handle`.

## Model

| member | source | states |
|---|---|---|
| AddressTable.IpToMac | src/c++/apps/echo/dpdk_common.cpp:110-120 | The loop returns the MAC of the first entry whose IP equals the argument, or the fallback when no entry has it. |
| AddressTable.MacForHit | src/c++/apps/echo/dpdk_common.cpp:113-117 | If entry `i` is the first with the IP, the lookup yields entry `i`'s MAC. |
| AddressTable.MacForMiss | src/c++/apps/echo/dpdk_common.cpp:119 | If no entry has the IP, the lookup yields the fallback (broadcast for DPDK, multicast for LWIP). |
| AddressTable.MacToIp | src/c++/apps/echo/dpdk_common.cpp:122-132 | The reverse scan returns the IP of the first entry whose MAC matches, and 0 when none does. |
| AddressTable.IpForHit | src/c++/apps/echo/dpdk_common.cpp:125-129 | The first entry with the MAC decides the IP. |
| AddressTable.IpForMiss | src/c++/apps/echo/dpdk_common.cpp:131 | With no matching MAC the result is 0. |
| InternetChecksum.IpSum | src/c++/apps/echo/dpdk_common.cpp:135-152 | The two loops on the `uint32_t` accumulator, early folds on bit 31 included, return the one's complement of the folded sum of the words the loop reads. It reads `hdr_len / 2` words, so an odd last byte is never read, and the 32-bit accumulator never wraps. |
| InternetChecksum.OnesSumIsFold | src/c++/apps/echo/dpdk_common.cpp:135-152 | Folding the plain word sum equals word-by-word one's complement addition as RFC 1071 defines it. |
| InternetChecksum.ChecksumVerifies | src/c++/apps/echo/dpdk_common.cpp:473-489 | The checksum of a header with a zero checksum field, stored into that field as `ip_sum` returns it, makes the header's checksum 0, so it verifies. |
| InternetChecksum.SwappedChecksumVerifies | libos/liblwip/lwip-queue.cc:335 | Stored byte-swapped instead, the header verifies exactly when the checksum's two bytes are equal. |
| InternetChecksum.FoldFull | src/c++/apps/echo/dpdk_common.cpp:148-151 | A sum folds to 0xFFFF (checksum 0) exactly when it is a non-zero multiple of 0xFFFF. |
| Wire.ReadHeaders | src/c++/apps/echo/dpdk_common.cpp:603-646 | The receive-side field readers (destination and source MAC, ether type, protocol, IP source and destination, UDP ports) return what the send side stored, whatever follows the headers. |
| DpdkFraming.FramingRoundTrip | src/c++/apps/echo/dpdk_common.cpp:514-541 | Decoding the framing of a correctly stored frame gives back exactly the sent segments, whatever headers precede it and whatever bytes follow it. |
| DpdkFraming.EncodeFramingLength | src/c++/apps/echo/dpdk_common.cpp:508-544 | The framing is 8 + Σ(8 + len_i) bytes, so `pkt_len` = 42 + 8 + Σ(8 + len_i). |
| DpdkFraming.EncodeSegsAppend | src/c++/apps/echo/dpdk_common.cpp:526-541 | Each turn of the segment loop appends one 8-byte length slot and the segment's bytes. |
| DpdkFraming.DecodeFraming | src/c++/apps/echo/dpdk_common.cpp:664-689 | The decoding loop returns exactly the parse of the frame (None when the frame ends inside a field or segment), and `data_len` is the sum of the decoded lengths. |
| DpdkFraming.AsWrittenAgreesBelow256 | src/c++/apps/echo/dpdk_common.cpp:516-527 | Over a zeroed buffer, with the count and every length below 256, the one-byte stores leave exactly the intended framing. |
| DpdkFraming.AsWrittenLosesLongSegment | src/c++/apps/echo/dpdk_common.cpp:526-534 | Written over a zeroed buffer, one 256-byte segment decodes as one empty segment, because its slot reads 0. |
| DpdkFraming.SlotOver | src/c++/apps/echo/dpdk_common.cpp:516-527 | A store through the `uint8_t *` sets only the slot's first byte, to the value's low byte; the slot stays 8 bytes. |
| DpdkFraming.FramingOver | src/c++/apps/echo/dpdk_common.cpp:514-541 | The framing as written after `i` segments ends where the loop's `ptr` does, 8 + 8i + Σ of the first `i` lengths after the headers. |
| DpdkEcho.PortAfterCycle | src/c++/apps/echo/dpdk_common.cpp:382-386 | After `k` ephemeral binds the counter is 1024 + (c − 1024 + k) mod 64512, so it always stays in 1024..65535. |
| DpdkEcho.EphemeralPortsDistinct | src/c++/apps/echo/dpdk_common.cpp:382-386 | No port is handed out twice within 64512 consecutive ephemeral binds. |
| DpdkEcho.DpdkFrame | src/c++/apps/echo/dpdk_common.cpp:508-544 | The intended frame is 42 header bytes plus the framing length. |
| DpdkEcho.DpdkFrameAsWritten | src/c++/apps/echo/dpdk_common.cpp:458-544 | The frame as written is `pkt_len` = 42 + framing length bytes, whatever the buffer held. |
| DpdkEcho.DpdkHeadersLayout | src/c++/apps/echo/dpdk_common.cpp:458-503 | In the 42 header bytes a receiver finds these fields: destination MAC, source MAC, IPv4 ether type, TTL 64, protocol UDP, bound/peer IP, bound/peer port. The IPv4 header checksum verifies, and what follows the headers is untouched. |
| DpdkEcho.DpdkFrameLayout | src/c++/apps/echo/dpdk_common.cpp:458-544 | The intended frame has those header fields, the intended framing right after the 42 header bytes, and `pkt_len` bytes in all. |
| DpdkEcho.ZeroedFrameAsIntended | src/c++/apps/echo/dpdk_common.cpp:508-544 | Over a zeroed buffer, with fewer than 256 segments of fewer than 256 bytes, the frame as written equals the intended frame. |
| DpdkEcho.Receive | src/c++/apps/echo/dpdk_common.cpp:603-689 | A frame is accepted only if all of these hold: the ether type is IPv4; if bound, the destination IP is the bound IP; the protocol is UDP; if bound, the destination port is the bound port; and the framing decodes. Acceptance yields the decoded segments and (IP source, UDP source port). |
| DpdkEcho.SentFrameAccepted | src/c++/apps/echo/dpdk_common.cpp:611-689 | The intended frame is accepted by an unbound receiver, or by one bound to the destination. The receiver gets exactly the sent segments and the sender's bound address. |
| DpdkEcho.AsWrittenFrameAccepted | src/c++/apps/echo/dpdk_common.cpp:458-689 | A frame as written over a zeroed buffer, with fewer than 256 segments of fewer than 256 bytes, is accepted in the same way with exactly the sent segments and the sender's address. |
| DpdkEcho.AsWrittenFrameLosesLongSegment | src/c++/apps/echo/dpdk_common.cpp:516-689 | A frame as written over a zeroed buffer with one 256-byte segment is accepted with one empty segment instead. |
| DpdkEcho.MisaddressedFrameDropped | src/c++/apps/echo/dpdk_common.cpp:627-660 | A receiver bound to an address other than the frame's destination drops the frame as written, whatever its framing holds. |
| DpdkEcho.Put | src/c++/apps/echo/dpdk_common.cpp:459-503 | A field store changes exactly the stored bytes of the buffer. |
| DpdkEcho.WriteHeaders | src/c++/apps/echo/dpdk_common.cpp:458-503 | The header stores leave the 42 header bytes of the frame, with the checksum computed over the zeroed header, and nothing after them changes. |
| DpdkEcho.WriteSegment | src/c++/apps/echo/dpdk_common.cpp:527-538 | One loop turn extends the written prefix by the low byte of the length, the seven bytes the buffer already held, and the segment bytes; everything after them is unchanged. |
| DpdkEcho.WriteFraming | src/c++/apps/echo/dpdk_common.cpp:514-544 | After the headers the buffer holds the framing as written over its old contents, nothing before or after it changes, `ptr` ends at 42 + framing length, and `data_len` is the `uint32_t` sum of the lengths. |
| DpdkEcho.BuildFrame | src/c++/apps/echo/dpdk_common.cpp:458-544 | The buffer's first `pkt_len` bytes are the frame as written over its old contents. |
| DpdkEcho.Endpoint.constructor | src/c++/apps/echo/dpdk_common.cpp:98-108 | The endpoint starts unbound, with no default peer, the counter at 1024 and an empty backlog. |
| DpdkEcho.Endpoint.Bind | src/c++/apps/echo/dpdk_common.cpp:376-398 | A zero port becomes `htons(counter)` and the counter advances with wrap to 1024; a zero IP becomes `mac_to_ip` of the device MAC; non-zero fields are kept; the endpoint is bound, and the peer and backlog are unchanged. |
| DpdkEcho.Endpoint.BindAny | src/c++/apps/echo/dpdk_common.cpp:400-407 | Binds to the device's table IP and the next ephemeral port. |
| DpdkEcho.Endpoint.Connect | src/c++/apps/echo/dpdk_common.cpp:409-415 | Later sends go to the given peer; nothing else changes. |
| DpdkEcho.Endpoint.Close | src/c++/apps/echo/dpdk_common.cpp:417-423 | The default peer is forgotten; nothing else changes. |
| DpdkEcho.Endpoint.SendTo | src/c++/apps/echo/dpdk_common.cpp:425-557 | An unbound endpoint binds to the next ephemeral port first. The frame as written over the buffer's old contents, for the default peer (if set) or `addr`, is in the buffer and handed to the device, which may accept it or not. The return value is Σ len_i modulo 2^32 either way, and the receive side is untouched. |
| DpdkEcho.Endpoint.RecvFrom | src/c++/apps/echo/dpdk_common.cpp:559-714 | A burst of at most 64 frames is fetched only when the backlog is empty. Each call consumes `pkt_buffer[pkt_idx]`, increments `pkt_idx` and decrements `num_packets`. It returns 0 and delivers nothing when the backlog is empty or the filter drops the frame. Otherwise it returns Σ of the decoded lengths and the sender. |
| LwipQueue.LwipIpToMac | libos/liblwip/lwip-queue.cc:52-81 | `ip_to_mac` returns each listed IP's MAC by value, and the multicast address 01:1b:19:00:00:00 for every other IP. |
| LwipQueue.ZeroedHeaderSum | libos/liblwip/lwip-queue.cc:324-334 | The word sum `ip_sum` folds over the zeroed header is fixed by the stored fields and the two addresses. |
| LwipQueue.AsWrittenChecksumVerifiesOnlyIfSymmetric | libos/liblwip/lwip-queue.cc:333-335 | With the checksum stored as `htons(ip_sum(..))`, a pushed header verifies exactly when the checksum's two bytes are equal. |
| LwipQueue.AsWrittenChecksumFails | libos/liblwip/lwip-queue.cc:324-335 | In a push between the table's two addresses, the checksum is 0xa259 and the header as written does not verify. |
| LwipQueue.LwipFields | libos/liblwip/lwip-queue.cc:315-343 | Whatever two checksum bytes are stored, the header mbuf has these fields: MACs, IPv4 ether type, total length 28 and datagram length 8 in network order, TTL 64, protocol UDP, the checksum bytes, bound/peer IP, bound/peer port. |
| LwipQueue.LwipHeadersAsWrittenLayout | libos/liblwip/lwip-queue.cc:315-343 | The header mbuf as written has all those fields, with the checksum in network byte order. |
| LwipQueue.LwipHeadersLayout | libos/liblwip/lwip-queue.cc:315-343 | With the checksum stored as computed, the header has the same fields, the checksum in host order, and it verifies. |
| LwipQueue.AsWrittenDiffersOnlyInChecksum | libos/liblwip/lwip-queue.cc:335 | The header as written and the intended header agree except that the checksum's two bytes are swapped. |
| LwipQueue.PushChain | libos/liblwip/lwip-queue.cc:346-367 | The pushed chain is well formed, and its `pkt_len` is the sum of its mbufs' lengths. |
| LwipQueue.TotalLenHead | libos/liblwip/lwip-queue.cc:367 | `pkt_len` of a chain is the header mbuf's length plus the segment lengths. |
| LwipQueue.ChainRoundTrip | libos/liblwip/lwip-queue.cc:346-441 | `popfrom` on a chain `pushto` built, with the headers as written, gets back exactly the pushed segments and the pusher's bound address. The chain has `nb_segs = 1 + num_bufs` and `pkt_len = 42 + Σ len_i`. |
| LwipQueue.GetOrCreate | libos/liblwip/lwip-queue.cc:300-304 | An absent token gets `{false, 0, addr, sga}` and an existing entry is kept as it is; there is one entry per token; other entries are unchanged. |
| LwipQueue.Complete | libos/liblwip/lwip-queue.cc:371-372 | The token's entry becomes done with the given result, keeping its address and segments; no other entry changes. |
| LwipQueue.BuildHeaderMbuf | libos/liblwip/lwip-queue.cc:313-350 | The header mbuf holds the LWIP headers as written for the bound and destination addresses: both MACs from the table, and `htons` of the checksum of the zeroed header. |
| LwipQueue.BuildChain | libos/liblwip/lwip-queue.cc:352-367 | The segment loop builds the header mbuf followed by one mbuf per segment in order, and `data_len` = Σ len_i, which does not wrap. |
| LwipQueue.CopySegments | libos/liblwip/lwip-queue.cc:424-435 | The copy loop yields `nb_segs − 1` segments, segment `i` being chain element `i + 1`, and `data_len` = Σ of their lengths. |
| LwipQueue.Queue.Bind | libos/liblwip/lwip-queue.cc:230-237 | The given address is stored and the queue is bound; the pending table is unchanged. |
| LwipQueue.Queue.PushTo | libos/liblwip/lwip-queue.cc:297-375 | The entry is got or created, then done with `res` = Σ len_i (also the return value). The chain of the headers as written and the segments is handed to the device, which may accept it or not. The bound address is untouched. |
| LwipQueue.Queue.PopFrom | libos/liblwip/lwip-queue.cc:378-450 | With no packet it returns 0 and the entry is left as got or created (not done if new). With one, the segments and sender come from the chain and the entry becomes done with `res` = Σ lengths. |
| LwipQueue.Queue.Wait | libos/liblwip/lwip-queue.cc:453-467 | It requires the token's entry. An entry already done returns its `res` with no further attempt. A push completes on its first retry, with Σ of the entry's own segments, sending at most the chain built from the entry's segments and address. A pop that completes has taken the device's first chain, its segments are returned and the result is Σ of their lengths; one that runs out changes nothing. |
| Bits64.TrailingZeros | src/rust/catnip/src/scheduler.rs:56 | `trailing_zeros` is the index of the lowest set bit. |
| Bits64.LowestSetBit | src/rust/catnip/src/scheduler.rs:54-55 | `bitset & bitset.wrapping_neg()` keeps exactly the lowest set bit. |
| Bits64.XorSetBit | src/rust/catnip/src/scheduler.rs:57 | `bitset ^= t` clears that bit. |
| Bits64.IterSetBits | src/rust/catnip/src/scheduler.rs:51-60 | The loop yields exactly the indices of the set bits, each below 64, in strictly ascending order, `popcount` of them. |
| Bits64.SetBitsMembers | src/rust/catnip/src/scheduler.rs:51-60 | An index is yielded exactly when its bit is set. |
| Bits64.SetBitsAscending | src/rust/catnip/src/scheduler.rs:51-60 | The yielded indices are strictly ascending, so none repeats. |
| Bits64.SetBitsCount | src/rust/catnip/src/scheduler.rs:51-60 | The loop runs `popcount(bitset)` times. |
| Scheduling.PageOf | src/rust/catnip/src/scheduler.rs:151-155 | `page_ix * 64 + subpage_ix == key` and `subpage_ix < 64`. |
| Scheduling.PageOfKey | src/rust/catnip/src/scheduler.rs:172 | The slab index `page_ix * 64 + subpage_ix` that `poll` forms splits back into the same page and subpage. |
| Scheduling.IntoRaw | src/rust/catnip/src/scheduler.rs:73-75 | The key is taken out and the handle keeps none, so dropping it later marks nothing. |
| Scheduling.Scheduler.constructor | src/rust/catnip/src/scheduler.rs:98-105 | An empty slab and no pages. |
| Scheduling.Scheduler.Insert | src/rust/catnip/src/scheduler.rs:129-137 | The future is stored under a fresh key. Pages are only appended, up to the first that covers the key. The key's subpage is set notified and not completed or dropped, and every other subpage and page is unchanged. The invariant is kept: every key has its page, and every set bit is a live key. |
| Scheduling.Scheduler.Take | src/rust/catnip/src/scheduler.rs:107-114 | It requires the subpage not to have been dropped. It returns the handle's future, clears its subpage and removes exactly that key from the slab. |
| Scheduling.Scheduler.DropHandle | src/rust/catnip/src/scheduler.rs:78-85 | It needs only the handle's page. A handle still holding its key marks subpage `key % 64` dropped and changes nothing else. A handle without a key changes nothing. The invariant is kept for a live key, and is broken for a key the slab does not hold. |
| Scheduling.Scheduler.FromRawHandle | src/rust/catnip/src/scheduler.rs:116-127 | As written, it returns None exactly when the slab contains the key, and otherwise a handle carrying the key. |
| Scheduling.Scheduler.FromRawHandleChecked | src/rust/catnip/src/scheduler.rs:116-127 | As intended, it returns a handle carrying the key exactly when the slab contains the key, and the handle's page exists. |
| Scheduling.Scheduler.PollNotified | src/rust/catnip/src/scheduler.rs:171-181 | Only futures whose notified bit was set are polled, at slab index `page * 64 + b`. A ready one is marked completed. The notified bits are taken and the slab and other pages are unchanged. |
| Scheduling.Scheduler.RemoveDropped | src/rust/catnip/src/scheduler.rs:182-186 | Every dropped subpage's slab entry is removed and the subpage cleared. All other keys keep their futures. |
| Scheduling.Scheduler.PollPage | src/rust/catnip/src/scheduler.rs:170-187 | One page for both loops. Afterwards nothing is notified or dropped, completion is as `CompletedAfterPoll` says, and exactly the dropped keys of the page have left the slab. |
| Scheduling.Scheduler.Poll | src/rust/catnip/src/scheduler.rs:167-188 | Over all pages: no notified or dropped bit is left; a subpage is completed iff it is not dropped and either already completed or notified with a ready future; exactly the dropped keys have left the slab. |
| Scheduling.FromRawHandleRejectsLiveKey | src/rust/catnip/src/scheduler.rs:118-120 | As written, `from_raw_handle(into_raw(h))` is None for every live handle. |
| Scheduling.FromRawHandleRoundTrip | src/rust/catnip/src/scheduler.rs:116-127 | With the intended test, `from_raw_handle(into_raw(h))` gives back `h` for every live handle. |
| Scheduling.DropAbsentKeyBreaksPoll | src/rust/catnip/src/scheduler.rs:182-186 | Marking dropped the subpage of a key the slab lacks leaves a set bit no key owns, so `poll`'s precondition fails: its `slab.remove` of that key would panic. |
| Scheduling.RawHandleOfAbsentKeyBreaksPoll | src/rust/catnip/src/scheduler.rs:116-127 | As written, `from_raw_handle` of an absent key hands out a handle, and dropping it leaves a scheduler `poll` cannot run on. |
| Icmpv4.HeaderType | src/rust/catnip/src/protocols/icmpv4/datagram/echo.rs:40 | The header type is EchoReply for byte 0 and EchoRequest for byte 8, and the parse fails with the type byte for any other value. |
| Icmpv4.TryFrom | src/rust/catnip/src/protocols/icmpv4/datagram/echo.rs:39-46 | It returns the header-type parse error when there is one, and otherwise the datagram as an echo message. |
| Icmpv4.EchoType | src/rust/catnip/src/protocols/icmpv4/datagram/echo.rs:20-25 | Request iff the type byte is 8, Reply iff it is 0. |
| Icmpv4.Id | src/rust/catnip/src/protocols/icmpv4/datagram/echo.rs:27-29 | The identifier is payload bytes [0, 2) read big-endian. |
| Icmpv4.SeqNum | src/rust/catnip/src/protocols/icmpv4/datagram/echo.rs:31-33 | The sequence number is payload bytes [2, 4) read big-endian. |
| Icmpv4.NewBytes | src/rust/catnip/src/protocols/icmpv4/datagram/echo.rs:52-56 | `ICMPV4_HEADER_SIZE` zero bytes. |
| Icmpv4.TypeRoundTrip | src/rust/catnip/src/protocols/icmpv4/datagram/echo.rs:66-75 | Setting Request writes EchoRequest and Reply writes EchoReply. The getter reads back the set type, and only the type byte changes. |
| Icmpv4.IdRoundTrip | src/rust/catnip/src/protocols/icmpv4/datagram/echo.rs:77-79 | Writing the identifier reads back. The sequence number and every byte outside payload [0, 2) are unchanged. |
| Icmpv4.SeqNumRoundTrip | src/rust/catnip/src/protocols/icmpv4/datagram/echo.rs:81-83 | Writing the sequence number reads back. The identifier and every byte outside payload [2, 4) are unchanged. |
| Icmpv4.FromBytes | src/rust/catnip/src/protocols/icmpv4/datagram/echo.rs:58-60 | It succeeds exactly when the buffer holds an ICMP header, wrapping that buffer, and otherwise fails with the buffer's length. |
| Icmpv4.Icmpv4EchoMut.constructor | src/rust/catnip/src/protocols/icmpv4/datagram/echo.rs:59 | It wraps a buffer that holds at least an ICMP header. |
| Icmpv4.Icmpv4EchoMut.SetType | src/rust/catnip/src/protocols/icmpv4/datagram/echo.rs:66-75 | In place, the buffer becomes `WithType` of its old contents. |
| Icmpv4.Icmpv4EchoMut.SetId | src/rust/catnip/src/protocols/icmpv4/datagram/echo.rs:77-79 | In place, the buffer becomes `WithId` of its old contents. |
| Icmpv4.Icmpv4EchoMut.SetSeqNum | src/rust/catnip/src/protocols/icmpv4/datagram/echo.rs:81-83 | In place, the buffer becomes `WithSeqNum` of its old contents. |

## Left out

- Device bring-up is not modelled: `init`, `port_init`, `check_all_ports_link_status`, `print_ether_addr`, and the mbuf pool and its allocation and freeing. These are foreign `rte_*` calls. The device is the abstract `Driver.Nic`, and `rte_eth_macaddr_get` yields its `mac`.
- The latency macros and the `DEBUG_ZEUS_LWIP` prints are left out; they are instrumentation only.
- The LWIP stubs that return a constant are left out (`queue`, `listen`, `accept`, `connect`, `close`, `open`, `creat`, `push`, `pop`, `poll`, `fd`). So are the constant 0 that `dpdk_bind`, `dpdk_connect`, `dpdk_close` and `bind` return, because it states nothing.
- Wakers are left out: `Waker::from_raw`, `AtomicWaker`, `root_waker` and real `Future::poll`. A future's poll is an `isReady` oracle.
- The `WakerPage` type is not part of this model, since its source is not shown. A page is three `u64` bitsets (notified, completed, dropped), and `WAKER_PAGE_SIZE` is taken as 64. `initialize` is taken to set the notified bit and clear the other two; `clear` clears all three.
- `SchedulerHandle::has_completed` is left out; it is not one of the modelled operations. The handle keeps only its key, because its page reference is always page `key / 64` of the scheduler.
- Scheduling.Scheduler.Insert: the slab's choice of key is left open. Any key not in the slab may be chosen, rather than the slab's next vacant entry.
- `Rc<RefCell<..>>` sharing and the borrow checks of the scheduler are left out. The scheduler is a single object.
- Pointer aliasing is left out. `dpdk_connect` stores a pointer to the caller's address, and the model stores its value, so later changes by the caller are not seen. The same holds for the address and segments a pending LWIP entry points to, and for the address `popfrom` writes through its pointer. In LwipQueue.Queue.Wait, the pop branch's writes to `req.addr` are returned to nobody.
- LwipQueue.Queue.Wait: a pop is retried at most `fuel` times, returning None if no chain arrived. The source spins until one arrives.
- The ICMP header constant and `IS_PUSH` are not part of this model, since their sources are not shown. `ICMPV4_HEADER_SIZE` is taken as 4, and a queue token carries its direction.
- Not every malformed frame is modelled the same way. The source reads past the end of a frame shorter than its headers, or shorter than its framing fields claim. DpdkEcho.Endpoint.RecvFrom drops such a frame and returns 0.
- Malformed LWIP chains are not modelled either. The device is assumed to hand `popfrom` only well-formed chains (`LwipQueue.Chain`).
- DpdkEcho.Endpoint.SendTo and DpdkEcho.WriteFraming: the `uint32_t` wrap of `data_len` is stated once, as the sum modulo 2^32. This is equal to wrapping after each addition.
- DpdkEcho.Endpoint.SendTo requires that the frame fits the packet buffer. The source writes past the mbuf otherwise.
- DpdkEcho.AsWrittenFrameAccepted and DpdkEcho.AsWrittenFrameLosesLongSegment are stated for a zeroed buffer only. What a fresh mbuf holds is not modelled, and what a receiver decodes from other leftover slot bytes is left unstated.
- Scheduling.Scheduler.Poll requires `Valid()`. A state with a set bit of a key the slab lacks, where `poll` panics, is excluded rather than modelled as a panic. Scheduling.Scheduler.DropHandle states when such a state arises.
- Icmpv4.FromBytes: `Icmpv4DatagramMut::from_bytes` is not part of this model, since its source is not shown. It is taken to fail exactly when the buffer is shorter than the ICMP header, with the error `Truncated`. Any further check it makes is not modelled.
- Icmpv4.HeaderType: the type parser of the ICMP header is not part of this model, since its source is not shown. The bytes of RFC 792 are taken: 0 is Echo Reply, 8 is Echo Request, and every other byte is an unsupported type.
- LwipQueue.Queue.PushTo requires that `nb_segs` and each `data_len` fit their 16-bit fields (`ChainFits`). The source truncates them otherwise.
- The widths of the mbuf fields are not modelled at all.
- The `NDEBUG`-disabled assertions of `dpdk_sendto`, `dpdk_recvfrom` and `popfrom` have no effect in the model, since they are compiled out.
- Nothing is modelled from `uri_generator.py` (randomness, floating point, file I/O) or `annot.h` (assertion macros).

## Findings

| source | as written | input that shows it | evidently intended | confidence | as-written member | corrected member |
|---|---|---|---|---|---|---|
| src/c++/apps/echo/dpdk_common.cpp:516 | The count and each segment length are stored through a `uint8_t *` (also at line 527). Only the low byte reaches the 8-byte slot, and the decoder reads the whole `uint64_t` (lines 666, 675). | A single 256-byte segment sent from a zeroed buffer decodes as one empty segment (`DpdkEcho.AsWrittenFrameLosesLongSegment` for the whole frame `DpdkEcho.Endpoint.SendTo` writes). | Each value is stored as a full 8-byte host integer. The decoder then returns exactly the sent segments. | not executed | DpdkFraming.AsWrittenLosesLongSegment | DpdkFraming.FramingRoundTrip |
| libos/liblwip/lwip-queue.cc:335 | The checksum is stored as `htons(ip_sum(..))`. But `ip_sum` sums host-order loads, so its result must be stored unswapped, as `dpdk_common.cpp:489` does. | A push from `s_addr` 0x0c0c0c04 to 0x0c0c0c05 (the two table entries) has checksum 0xa259, and the header does not verify. It verifies only when both checksum bytes are equal. | The checksum is stored as computed. Every pushed header then verifies. | not executed | LwipQueue.AsWrittenChecksumFails | LwipQueue.LwipHeadersLayout |
| src/rust/catnip/src/scheduler.rs:118-120 | `from_raw_handle` returns None when the slab contains the key. | A live handle `h`: `from_raw_handle(into_raw(h))` is None. For a key the slab lacks it hands out a handle, and dropping that handle makes the next `poll` remove a vacant entry (`Scheduling.RawHandleOfAbsentKeyBreaksPoll`). | Return None when the key is absent, and otherwise a handle for the key. `into_raw` followed by `from_raw_handle` then gives back the handle. | not executed | Scheduling.FromRawHandleRejectsLiveKey | Scheduling.FromRawHandleRoundTrip |
