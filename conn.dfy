/** The UDP packet connection over a raw link-layer socket: the address filter, the
    frame encoder used by WriteTo and the frame decoder loop of ReadFrom. */
module Conn {
  import opened Wrappers
  import opened InternetChecksum
  import opened Header
  import opened RawTransport

  /** The link-layer broadcast address: six octets, all bits set. */
  const BroadcastMac: seq<byte> := [255, 255, 255, 255, 255, 255]

  /** The TTL of every frame the connection builds. */
  const DefaultTTL: byte := 30

  /** An IPv4 address: four octets. */
  type IPv4Address = a: seq<byte> | |a| == 4 witness [0, 0, 0, 0]

  /** A UDP address; `ip` is None where the IP is nil. The port is a Go `int`. */
  datatype UdpAddr = UdpAddr(ip: Option<IPv4Address>, port: int)

  /** The address passed to WriteTo: a UDP address, or an address of another kind. */
  datatype NetAddr = Udp(addr: UdpAddr) | OtherAddr(network: string)

  /** A datagram taken out of a frame: its destination address and its payload. */
  datatype Datagram = Datagram(to: UdpAddr, payload: seq<byte>)

  /** What ReadFrom returns on success: the number of bytes copied and the address. */
  datatype Received = Received(n: nat, addr: UdpAddr)

  function Min(a: int, b: int): int {
    if a <= b then a else b
  }

  /** `IP.To4`: the codec address of an IP; a nil IP gives the empty address. */
  function To4(ip: Option<IPv4Address>): (r: Address)
    ensures ip.Some? ==> AddrBytes(r) == ip.value
    ensures ip.None? ==> AddrBytes(r) == [0, 0, 0, 0] && WordSum(r) == 0
  {
    if ip.Some? then ip.value else []
  }

  // ---------------------------------------------------------------- address filter

  /** `udpMatch`: whether a packet destined to `addr` passes the filter `bound`. */
  predicate UdpMatch(addr: UdpAddr, bound: Option<UdpAddr>)
    ensures bound.None? ==> UdpMatch(addr, bound)
    ensures bound.Some? && bound.value.ip.Some? && bound.value.ip != addr.ip ==> !UdpMatch(addr, bound)
    ensures bound.Some? && bound.value.port != addr.port ==> !UdpMatch(addr, bound)
    ensures bound.Some? && bound.value.ip.None? && bound.value.port == addr.port ==> UdpMatch(addr, bound)
    ensures bound.Some? && bound.value.ip == addr.ip && bound.value.port == addr.port ==> UdpMatch(addr, bound)
  {
    if bound.None? then true
    else if bound.value.ip.Some? && bound.value.ip != addr.ip then false
    else bound.value.port == addr.port
  }

  // ---------------------------------------------------------------- encoder

  /** The IPv4 fields `udp4pkt` fills in, before the checksum is computed. */
  function Udp4Fields(packet: seq<byte>, dest: UdpAddr, src: UdpAddr): (f: IPv4Fields)
    ensures f.Valid() && f.checksum == 0
  {
    IPv4Fields(
      ihl := IPv4MinimumSize,
      totalLength := U16(IPv4MinimumSize + UDPMinimumSize + |packet|),
      ttl := DefaultTTL,
      protocol := UDPProtocolNumber,
      checksum := 0,
      srcAddr := To4(src.ip),
      dstAddr := To4(dest.ip))
  }

  /** The UDP fields `udp4pkt` fills in, before the checksum is computed. */
  function Udp4UDPFields(packet: seq<byte>, dest: UdpAddr, src: UdpAddr): (f: UDPFields)
    ensures f.Valid() && f.checksum == 0
  {
    UDPFields(
      srcPort := U16(src.port),
      dstPort := U16(dest.port),
      length := U16(UDPMinimumSize + |packet|),
      checksum := 0)
  }

  /** The IPv4 header `udp4pkt` writes: the encoded fields, then the complement of the
      header's checksum stored in its checksum field. */
  function Udp4IPv4Header(packet: seq<byte>, dest: UdpAddr, src: UdpAddr): (h: seq<byte>)
    ensures |h| == IPv4MinimumSize
  {
    var ipv4fields := Udp4Fields(packet, dest, src);
    var ipv4hdr := EncodeIPv4(ipv4fields);
    EncodeIPv4Fields(ipv4fields);
    SetIPv4Checksum(ipv4hdr, Complement(IPv4CalculateChecksum(ipv4hdr)))
  }

  /** The UDP header `udp4pkt` writes: the encoded fields, then the complement of the
      checksum over pseudo-header (for transport protocol `protocol`), payload and header. */
  function Udp4UDPHeader(packet: seq<byte>, dest: UdpAddr, src: UdpAddr, protocol: byte): (h: seq<byte>)
    ensures |h| == UDPMinimumSize
  {
    var ipv4fields := Udp4Fields(packet, dest, src);
    var udphdr := EncodeUDP(Udp4UDPFields(packet, dest, src));
    var xsum := Checksum(packet, PseudoHeaderChecksum(protocol, ipv4fields.srcAddr, ipv4fields.dstAddr));
    SetUDPChecksum(udphdr, Complement(UDPCalculateChecksum(udphdr, xsum, UDPLength(udphdr))))
  }

  /** `udp4pkt`: the frame carrying `packet` from `src` to `dest`: a 20-byte IPv4 header,
      an 8-byte UDP header, then the payload unchanged. */
  function Udp4Pkt(packet: seq<byte>, dest: UdpAddr, src: UdpAddr): (r: seq<byte>)
    ensures |r| == IPv4MinimumSize + UDPMinimumSize + |packet|
    ensures r[IPv4MinimumSize + UDPMinimumSize..] == packet
  {
    var ipv4hdr := Udp4IPv4Header(packet, dest, src);
    var udphdr := Udp4UDPHeader(packet, dest, src, TransportProtocol(ipv4hdr));
    var r := ipv4hdr + udphdr + packet;
    assert r[IPv4MinimumSize + UDPMinimumSize..] == packet;
    r
  }

  // ---------------------------------------------------------------- decoder

  /** The frames the decoder can take apart: the header length is read from the first
      byte, the protocol byte lies inside the header, and a UDP frame holds a full
      20-byte IPv4 header and a full UDP header. */
  predicate WellFormed(f: seq<byte>) {
    |f| >= 1 && 10 <= IPv4HeaderLength(f) <= |f| &&
    (TransportProtocol(f) == UDPProtocolNumber ==>
       IPv4MinimumSize <= IPv4HeaderLength(f) && IPv4HeaderLength(f) + UDPMinimumSize <= |f|)
  }

  predicate AllWellFormed(inbox: seq<Incoming>) {
    forall i :: 0 <= i < |inbox| && inbox[i].Frame? ==> WellFormed(inbox[i].bytes)
  }

  /** The size of the buffer ReadFrom reads a frame into, for a caller's buffer of
      `capacity` bytes: the largest IPv4 header, a UDP header and the payload. */
  function ReadBufferSize(capacity: nat): nat {
    IPv4MaximumHeaderSize + UDPMinimumSize + capacity
  }

  /** The body of one ReadFrom iteration: skip the variable-length IPv4 header, give up
      on anything but UDP, skip the UDP header, and take the destination address from
      the IPv4 destination and the UDP destination port. None means "not UDP". */
  function Parse(f: seq<byte>): (r: Option<Datagram>)
    requires WellFormed(f)
    ensures r.Some? <==> TransportProtocol(f) == UDPProtocolNumber
    ensures r.Some? ==> |r.value.payload| == |f| - IPv4HeaderLength(f) - UDPMinimumSize
  {
    var ihl := IPv4HeaderLength(f);
    var ipHdr := f[..ihl];
    if TransportProtocol(ipHdr) != UDPProtocolNumber then None
    else
      var udpHdr := f[ihl..ihl + UDPMinimumSize];
      Some(Datagram(UdpAddr(Some(DestinationAddress(ipHdr)), DestinationPort(udpHdr)), f[ihl + UDPMinimumSize..]))
  }

  /** A frame as the transport delivers it into the read buffer is still well formed. */
  lemma DeliveredWellFormed(f: seq<byte>, capacity: nat)
    requires WellFormed(f)
    ensures Receive(Frame(f), ReadBufferSize(capacity)).Ok?
    ensures WellFormed(Receive(Frame(f), ReadBufferSize(capacity)).value)
  {
    var g := Receive(Frame(f), ReadBufferSize(capacity)).value;
    assert g[..10] == f[..10];
  }

  /** The datagram ReadFrom returns for frame `f`, if it is UDP and passes the filter. */
  function Accept(f: seq<byte>, bound: Option<UdpAddr>, capacity: nat): (r: Option<Datagram>)
    requires WellFormed(f)
    ensures r.Some? ==> UdpMatch(r.value.to, bound) && TransportProtocol(f) == UDPProtocolNumber
  {
    DeliveredWellFormed(f, capacity);
    var d := Parse(Receive(Frame(f), ReadBufferSize(capacity)).value);
    if d.Some? && UdpMatch(d.value.to, bound) then d else None
  }

  /** A read outcome that ReadFrom discards before reading again. */
  predicate Skipped(item: Incoming, bound: Option<UdpAddr>, capacity: nat) {
    item.Frame? && WellFormed(item.bytes) && Accept(item.bytes, bound, capacity).None?
  }

  /** What ReadFrom does with the queued read outcomes: how many it consumes, and the
      datagram it returns or the error it stops with. */
  function Scan(inbox: seq<Incoming>, bound: Option<UdpAddr>, capacity: nat): (r: (nat, Result<Datagram, Error>))
    requires AllWellFormed(inbox)
    ensures r.0 <= |inbox|
    ensures |inbox| > 0 ==> r.0 >= 1
    decreases |inbox|
  {
    if |inbox| == 0 then (0, Err(Closed))
    else match inbox[0]
      case Failure(e) => (1, Err(e))
      case Frame(f) =>
        var d := Accept(f, bound, capacity);
        if d.Some? then (1, Ok(d.value))
        else
          var rest := Scan(inbox[1..], bound, capacity);
          (rest.0 + 1, rest.1)
  }

  // ---------------------------------------------------------------- the connection

  /** `UDPPacketConn`: a packet connection that marshals UDP datagrams into raw frames
      on `transport` and filters inbound frames by `boundAddr`. */
  class UDPPacketConn {
    const transport: RawConn
    /** The address this connection is "bound" to; None where the pointer is nil. */
    const boundAddr: Option<UdpAddr>

    /** `NewBroadcastUDPConn`. */
    constructor (rawPacketConn: RawConn, boundAddr: Option<UdpAddr>)
      ensures transport == rawPacketConn && this.boundAddr == boundAddr
    {
      transport := rawPacketConn;
      this.boundAddr := boundAddr;
    }

    /** Reads frames until one is a UDP datagram whose destination passes the filter,
        and copies as much of its payload as fits into `b`. A read error ends the call. */
    method ReadFrom(b: array<byte>) returns (r: Result<Received, Error>)
      requires AllWellFormed(transport.inbox)
      modifies transport, b
      ensures var s := Scan(old(transport.inbox), boundAddr, b.Length);
        transport.inbox == old(transport.inbox)[s.0..] &&
        match s.1
        case Err(e) => r == Err(e) && b[..] == old(b[..])
        case Ok(d) =>
          r.Ok? && r.value.addr == d.to && r.value.n == Min(b.Length, |d.payload|) &&
          b[..r.value.n] == d.payload[..r.value.n] && b[r.value.n..] == old(b[r.value.n..])
      ensures transport.sent == old(transport.sent) && transport.writeError == old(transport.writeError)
    {
      ghost var inbox0 := transport.inbox;
      ghost var consumed: nat := 0;
      while true
        invariant consumed <= |inbox0| && transport.inbox == inbox0[consumed..]
        invariant AllWellFormed(transport.inbox)
        invariant var s := Scan(transport.inbox, boundAddr, b.Length);
          Scan(inbox0, boundAddr, b.Length) == (consumed + s.0, s.1)
        invariant b[..] == old(b[..])
        invariant transport.sent == old(transport.sent) && transport.writeError == old(transport.writeError)
        decreases |transport.inbox|
      {
        ghost var before := transport.inbox;
        var read := transport.ReadFrom(ReadBufferSize(b.Length));
        if read.Err? {
          if before != [] {
            assert Scan(before, boundAddr, b.Length) == (1, Err(read.error));
            consumed := consumed + 1;
          }
          return Err(read.error);
        }
        var pkt := read.value;
        ghost var f := before[0].bytes;
        DeliveredWellFormed(f, b.Length);
        assert pkt == Receive(Frame(f), ReadBufferSize(b.Length)).value;
        ghost var tail := Scan(before[1..], boundAddr, b.Length);
        consumed := consumed + 1;

        var d := Parse(pkt);
        if d.None? || !UdpMatch(d.value.to, boundAddr) {
          assert Scan(before, boundAddr, b.Length) == (1 + tail.0, tail.1);
          continue;
        }
        var addr, rest := d.value.to, d.value.payload;
        assert Scan(before, boundAddr, b.Length) == (1, Ok(d.value));
        var n := Min(b.Length, |rest|);
        forall i | 0 <= i < n {
          b[i] := rest[i];
        }
        return Ok(Received(n, addr));
      }
    }

    /** Wraps `b` in IPv4 and UDP headers, with the bound address as the source, and
        broadcasts the frame; returns what the transport returns. */
    method WriteTo(b: seq<byte>, addr: NetAddr) returns (r: Result<nat, Error>)
      requires addr.Udp? ==> boundAddr.Some?
      modifies transport
      ensures transport.inbox == old(transport.inbox) && transport.writeError == old(transport.writeError)
      ensures addr.OtherAddr? ==> r == Err(MustSupplyUdpAddr) && transport.sent == old(transport.sent)
      ensures addr.Udp? ==>
        var frame := Udp4Pkt(b, addr.addr, boundAddr.value);
        if old(transport.writeError).Some? then
          r == Err(old(transport.writeError).value) && transport.sent == old(transport.sent)
        else
          r == Ok(|frame|) && transport.sent == old(transport.sent) + [Outgoing(frame, BroadcastMac)]
    {
      if !addr.Udp? {
        return Err(MustSupplyUdpAddr);
      }
      var packet := Udp4Pkt(b, addr.addr, boundAddr.value);
      r := transport.WriteTo(packet, BroadcastMac);
    }
  }
}
