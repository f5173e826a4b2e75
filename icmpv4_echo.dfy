/** The ICMPv4 Echo and Echo Reply messages of RFC 792
    (src/rust/catnip/src/protocols/icmpv4/datagram/echo.rs): the type byte
    of the ICMP header, and the identifier and sequence number, big-endian
    16-bit values at bytes [0, 2) and [2, 4) of the payload.

    A datagram is its bytes: the 4-byte ICMP header (type, code, checksum)
    and then the payload. */
module Icmpv4 {
  import opened Bytes

  const ICMPV4_HEADER_SIZE: nat := 4
  const ECHO_REPLY_BYTE: u8 := 0
  const ECHO_REQUEST_BYTE: u8 := 8

  /** The ICMP message types the stack understands. */
  datatype Icmpv4Type = EchoReply | EchoRequest

  datatype Icmpv4EchoType = Request | Reply

  /** The errors: a header whose type byte is not a known type, and a
      buffer too short for an ICMP header. */
  datatype Fail = Unsupported(typeByte: u8) | Truncated(length: nat)

  datatype Result<T> = Ok(value: T) | Err(error: Fail)

  /** An `Icmpv4Datagram`: at least a whole ICMP header. */
  type Datagram = d: seq<u8> | |d| >= ICMPV4_HEADER_SIZE witness [0, 0, 0, 0]

  function TypeByte(t: Icmpv4Type): u8
  {
    match t
    case EchoReply => ECHO_REPLY_BYTE
    case EchoRequest => ECHO_REQUEST_BYTE
  }

  /** The header's `r#type()`: the type its first byte names, or the
      parse error. */
  function HeaderType(d: Datagram): (r: Result<Icmpv4Type>)
    ensures r.Ok? <==> d[0] == ECHO_REPLY_BYTE || d[0] == ECHO_REQUEST_BYTE
    ensures r.Ok? ==> TypeByte(r.value) == d[0]
    ensures r.Err? ==> r.error == Unsupported(d[0])
  {
    if d[0] == ECHO_REPLY_BYTE then Ok(EchoReply)
    else if d[0] == ECHO_REQUEST_BYTE then Ok(EchoRequest)
    else Err(Unsupported(d[0]))
  }

  function Payload(d: Datagram): seq<u8>
  {
    d[ICMPV4_HEADER_SIZE..]
  }

  /** A big-endian 16-bit load (`NetworkEndian::read_u16`). */
  function ReadBE16(s: seq<u8>): (v: u16)
    requires |s| == 2
    ensures BE16(v) == s
  {
    (s[0] as int) * 256 + s[1]
  }

  /** `TryFrom<Icmpv4Datagram> for Icmpv4Echo`: the header-type parse
      error if there is one, otherwise the datagram as an echo message
      (the `assert!` on its type always holds, both known types being
      echo types). */
  function TryFrom(d: Datagram): (r: Result<Datagram>)
    ensures r.Ok? <==> d[0] == ECHO_REPLY_BYTE || d[0] == ECHO_REQUEST_BYTE
    ensures r.Ok? ==> r.value == d
    ensures r.Err? ==> r.error == Unsupported(d[0])
  {
    match HeaderType(d)
    case Err(e) => Err(e)
    case Ok(t) =>
      assert t == EchoRequest || t == EchoReply;
      Ok(d)
  }

  /** `Icmpv4Echo::r#type`: the echo type of the header type. */
  function EchoType(d: Datagram): (t: Icmpv4EchoType)
    requires HeaderType(d).Ok?
    ensures t == Request <==> d[0] == ECHO_REQUEST_BYTE
    ensures t == Reply <==> d[0] == ECHO_REPLY_BYTE
  {
    match HeaderType(d).value
    case EchoRequest => Request
    case EchoReply => Reply
  }

  /** `Icmpv4Echo::id`. */
  function Id(d: Datagram): (v: u16)
    requires |Payload(d)| >= 2
    ensures BE16(v) == d[4..6]
  {
    ReadBE16(Payload(d)[..2])
  }

  /** `Icmpv4Echo::seq_num`. */
  function SeqNum(d: Datagram): (v: u16)
    requires |Payload(d)| >= 4
    ensures BE16(v) == d[6..8]
  {
    ReadBE16(Payload(d)[2..4])
  }

  /** `Icmpv4EchoMut::new_bytes`: a zeroed buffer the size of an ICMP
      header. */
  function NewBytes(): (b: seq<u8>)
    ensures |b| == ICMPV4_HEADER_SIZE
    ensures forall i :: 0 <= i < |b| ==> b[i] == 0
  {
    seq(ICMPV4_HEADER_SIZE, _ => 0)
  }

  // The bytes after each in-place write of `Icmpv4EchoMut`.

  function WithType(d: Datagram, value: Icmpv4EchoType): Datagram
  {
    d[0 := match value case Request => TypeByte(EchoRequest) case Reply => TypeByte(EchoReply)]
  }

  function WithId(d: Datagram, value: u16): Datagram
    requires |Payload(d)| >= 2
  {
    d[..4] + BE16(value) + d[6..]
  }

  function WithSeqNum(d: Datagram, value: u16): Datagram
    requires |Payload(d)| >= 4
  {
    d[..6] + BE16(value) + d[8..]
  }

  /** Setting the echo type and reading it back gives the same type; the
      setter writes the ICMP type EchoRequest for Request and EchoReply for
      Reply; nothing but the type byte changes. */
  lemma TypeRoundTrip(d: Datagram, value: Icmpv4EchoType)
    ensures HeaderType(WithType(d, value)).Ok?
    ensures HeaderType(WithType(d, value)).value == (if value == Request then EchoRequest else EchoReply)
    ensures EchoType(WithType(d, value)) == value
    ensures |WithType(d, value)| == |d|
    ensures forall i :: 1 <= i < |d| ==> WithType(d, value)[i] == d[i]
  {
  }

  /** Writing the identifier: it reads back, the sequence number is
      unchanged, and no byte outside payload bytes [0, 2) changes. */
  lemma IdRoundTrip(d: Datagram, value: u16)
    requires |Payload(d)| >= 2
    ensures |Payload(WithId(d, value))| >= 2 && Id(WithId(d, value)) == value
    ensures |WithId(d, value)| == |d|
    ensures forall i :: 0 <= i < |d| && !(4 <= i < 6) ==> WithId(d, value)[i] == d[i]
    ensures |Payload(d)| >= 4 ==> SeqNum(WithId(d, value)) == SeqNum(d)
  {
    var e := WithId(d, value);
    assert e[4..6] == BE16(value);
    if |Payload(d)| >= 4 {
      assert e[6..8] == d[6..8];
    }
  }

  /** Writing the sequence number: it reads back, the identifier is
      unchanged, and no byte outside payload bytes [2, 4) changes. */
  lemma SeqNumRoundTrip(d: Datagram, value: u16)
    requires |Payload(d)| >= 4
    ensures |Payload(WithSeqNum(d, value))| >= 4 && SeqNum(WithSeqNum(d, value)) == value
    ensures |WithSeqNum(d, value)| == |d|
    ensures forall i :: 0 <= i < |d| && !(6 <= i < 8) ==> WithSeqNum(d, value)[i] == d[i]
    ensures Id(WithSeqNum(d, value)) == Id(d)
  {
    var e := WithSeqNum(d, value);
    assert e[6..8] == BE16(value);
    assert e[4..6] == d[4..6];
  }

  /** `Icmpv4EchoMut`: an echo message written in place in a mutable byte
      buffer. */
  class Icmpv4EchoMut {
    const bytes: array<u8>

    /** `Icmpv4EchoMut(..)` around a buffer that holds at least an ICMP
        header. */
    constructor (bytes: array<u8>)
      requires bytes.Length >= ICMPV4_HEADER_SIZE
      ensures this.bytes == bytes
    {
      this.bytes := bytes;
    }

    /** `r#type(value)`. */
    method SetType(value: Icmpv4EchoType)
      requires bytes.Length >= ICMPV4_HEADER_SIZE
      modifies bytes
      ensures bytes[..] == WithType(old(bytes[..]), value)
    {
      match value
      case Request => bytes[0] := TypeByte(EchoRequest);
      case Reply => bytes[0] := TypeByte(EchoReply);
    }

    /** `id(value)`: `NetworkEndian::write_u16` into payload bytes [0, 2). */
    method SetId(value: u16)
      requires bytes.Length >= ICMPV4_HEADER_SIZE + 2
      modifies bytes
      ensures bytes[..] == WithId(old(bytes[..]), value)
    {
      bytes[4] := value / 256;
      bytes[5] := value % 256;
    }

    /** `seq_num(value)`: `NetworkEndian::write_u16` into payload bytes
        [2, 4). */
    method SetSeqNum(value: u16)
      requires bytes.Length >= ICMPV4_HEADER_SIZE + 4
      modifies bytes
      ensures bytes[..] == WithSeqNum(old(bytes[..]), value)
    {
      bytes[6] := value / 256;
      bytes[7] := value % 256;
    }
  }

  /** `Icmpv4EchoMut::from_bytes`: the message over `bytes`, or the error
      of a buffer too short for an ICMP header. */
  method FromBytes(bytes: array<u8>) returns (r: Result<Icmpv4EchoMut>)
    ensures r.Ok? <==> bytes.Length >= ICMPV4_HEADER_SIZE
    ensures r.Ok? ==> r.value.bytes == bytes
    ensures r.Err? ==> r.error == Truncated(bytes.Length)
  {
    if bytes.Length < ICMPV4_HEADER_SIZE {
      return Err(Truncated(bytes.Length));
    }
    var m := new Icmpv4EchoMut(bytes);
    return Ok(m);
  }
}
