/** The network device as the queues see it through DPDK's poll-mode
    driver: `rte_eth_macaddr_get`, `rte_eth_tx_burst` and
    `rte_eth_rx_burst` on one port and one queue.

    The device is an oracle: how many packets a burst hands over, and
    whether a transmit is accepted, is chosen by the device, so each call
    may return any count the contract allows.  `P` is what a packet is at
    that layer: a single-segment frame in the echo application, an mbuf
    chain in the LWIP queue. */
module Driver {
  import opened Options
  import opened AddressTable

  class Nic<P> {
    /** The port's hardware address. */
    const mac: MacAddr
    /** Packets that have arrived and not yet been handed to a burst. */
    var rxQueue: seq<P>
    /** Packets the device accepted for transmission, oldest first. */
    var txLog: seq<P>

    constructor (mac: MacAddr, arriving: seq<P>)
      ensures this.mac == mac && rxQueue == arriving && txLog == []
    {
      this.mac := mac;
      rxQueue := arriving;
      txLog := [];
    }

    /** `rte_eth_tx_burst(port, 0, &pkt, 1)`: the number of packets the
        device took, 0 or 1. */
    method TxBurst(p: P) returns (n: nat)
      modifies this
      ensures n <= 1
      ensures txLog == old(txLog) + (if n == 1 then [p] else [])
      ensures rxQueue == old(rxQueue)
    {
      n :| n <= 1;
      if n == 1 {
        txLog := txLog + [p];
      }
    }

    /** `rte_eth_rx_burst(port, 0, buf, max)`: up to `max` of the waiting
        packets, oldest first, written to the front of `buf`. */
    method RxBurst(buf: array<P>, max: nat) returns (n: nat)
      requires max <= buf.Length
      modifies this, buf
      ensures n <= max && n <= |old(rxQueue)|
      ensures buf[..n] == old(rxQueue)[..n]
      ensures buf[n..] == old(buf[n..])
      ensures rxQueue == old(rxQueue)[n..]
      ensures txLog == old(txLog)
    {
      n :| n <= max && n <= |rxQueue|;
      var i := 0;
      while i < n
        invariant 0 <= i <= n
        invariant rxQueue == old(rxQueue) && txLog == old(txLog)
        invariant buf[..i] == rxQueue[..i]
        invariant buf[n..] == old(buf[n..])
      {
        buf[i] := rxQueue[i];
        i := i + 1;
      }
      rxQueue := rxQueue[n..];
    }

    /** `rte_eth_rx_burst(port, 0, &m, 1)`: at most one waiting packet. */
    method RxOne() returns (m: Option<P>)
      modifies this
      ensures m.None? ==> rxQueue == old(rxQueue)
      ensures m.Some? ==> old(rxQueue) != [] && m.value == old(rxQueue)[0] && rxQueue == old(rxQueue)[1..]
      ensures txLog == old(txLog)
    {
      var n: nat :| n <= 1 && n <= |rxQueue|;
      if n == 0 {
        m := None;
      } else {
        m := Some(rxQueue[0]);
        rxQueue := rxQueue[1..];
      }
    }
  }
}
