/** The static IP-to-MAC table (`ip_config`) and its two linear lookups.

    Both queues keep such a table and scan it front to back, stopping at
    the first match; they differ in the table contents and in what a miss
    returns (the broadcast address in the echo application, a multicast
    address in the LWIP queue). */
module AddressTable {
  import opened Bytes

  /** A 6-byte Ethernet hardware address. */
  type MacAddr = s: seq<u8> | |s| == 6 witness [0, 0, 0, 0, 0, 0]

  /** One `struct mac2ip` entry. */
  datatype Mac2Ip = Mac2Ip(mac: MacAddr, ip: u32)

  /** The MAC of the first entry whose IP is `ip`, or `fallback`. */
  function MacFor(table: seq<Mac2Ip>, ip: u32, fallback: MacAddr): MacAddr
  {
    if table == [] then fallback
    else if table[0].ip == ip then table[0].mac
    else MacFor(table[1..], ip, fallback)
  }

  /** The IP of the first entry whose MAC is `mac`, or 0. */
  function IpFor(table: seq<Mac2Ip>, mac: MacAddr): u32
  {
    if table == [] then 0
    else if table[0].mac == mac then table[0].ip
    else IpFor(table[1..], mac)
  }

  /** A miss returns the fallback. */
  lemma {:induction false} MacForMiss(table: seq<Mac2Ip>, ip: u32, fallback: MacAddr)
    requires forall i :: 0 <= i < |table| ==> table[i].ip != ip
    ensures MacFor(table, ip, fallback) == fallback
  {
    if table != [] {
      assert table[0].ip != ip;
      MacForMiss(table[1..], ip, fallback);
    }
  }

  /** The first entry with the IP decides the result. */
  lemma {:induction false} MacForHit(table: seq<Mac2Ip>, ip: u32, fallback: MacAddr, i: nat)
    requires i < |table| && table[i].ip == ip
    requires forall j :: 0 <= j < i ==> table[j].ip != ip
    ensures MacFor(table, ip, fallback) == table[i].mac
    decreases i
  {
    if i > 0 {
      assert table[0].ip != ip;
      assert table[i] == table[1..][i - 1];
      MacForHit(table[1..], ip, fallback, i - 1);
    }
  }

  /** `ip_to_mac(ip)`: a for-loop over the table with an early return. */
  method IpToMac(table: seq<Mac2Ip>, ip: u32, fallback: MacAddr) returns (mac: MacAddr)
    ensures mac == MacFor(table, ip, fallback)
    ensures (forall i :: 0 <= i < |table| ==> table[i].ip != ip) ==> mac == fallback
    ensures forall i :: 0 <= i < |table| && table[i].ip == ip && (forall j :: 0 <= j < i ==> table[j].ip != ip)
                    ==> mac == table[i].mac
  {
    var i := 0;
    while i < |table|
      invariant 0 <= i <= |table|
      invariant forall j :: 0 <= j < i ==> table[j].ip != ip
      invariant MacFor(table[i..], ip, fallback) == MacFor(table, ip, fallback)
    {
      if table[i].ip == ip {
        MacForHit(table, ip, fallback, i);
        return table[i].mac;
      }
      assert table[i..][1..] == table[i + 1..];
      i := i + 1;
    }
    MacForMiss(table, ip, fallback);
    return fallback;
  }

  lemma {:induction false} IpForMiss(table: seq<Mac2Ip>, mac: MacAddr)
    requires forall i :: 0 <= i < |table| ==> table[i].mac != mac
    ensures IpFor(table, mac) == 0
  {
    if table != [] {
      assert table[0].mac != mac;
      IpForMiss(table[1..], mac);
    }
  }

  lemma {:induction false} IpForHit(table: seq<Mac2Ip>, mac: MacAddr, i: nat)
    requires i < |table| && table[i].mac == mac
    requires forall j :: 0 <= j < i ==> table[j].mac != mac
    ensures IpFor(table, mac) == table[i].ip
    decreases i
  {
    if i > 0 {
      assert table[0].mac != mac;
      assert table[i] == table[1..][i - 1];
      IpForHit(table[1..], mac, i - 1);
    }
  }

  /** `mac_to_ip(mac)`: the reverse scan, 0 on a miss. */
  method MacToIp(table: seq<Mac2Ip>, mac: MacAddr) returns (ip: u32)
    ensures ip == IpFor(table, mac)
    ensures (forall i :: 0 <= i < |table| ==> table[i].mac != mac) ==> ip == 0
    ensures forall i :: 0 <= i < |table| && table[i].mac == mac && (forall j :: 0 <= j < i ==> table[j].mac != mac)
                    ==> ip == table[i].ip
  {
    var i := 0;
    while i < |table|
      invariant 0 <= i <= |table|
      invariant forall j :: 0 <= j < i ==> table[j].mac != mac
      invariant IpFor(table[i..], mac) == IpFor(table, mac)
    {
      if table[i].mac == mac {
        IpForHit(table, mac, i);
        return table[i].ip;
      }
      assert table[i..][1..] == table[i + 1..];
      i := i + 1;
    }
    IpForMiss(table, mac);
    return 0;
  }
}
