/** What the encoder and the decoder loop of the UDP packet connection guarantee:
    the layout and checksums of the frames WriteTo sends, which frame ReadFrom returns,
    and that ReadFrom recovers what WriteTo sent. */
module ConnProperties {
  import opened Wrappers
  import opened InternetChecksum
  import opened Header
  import opened RawTransport
  import opened Conn

  // ---------------------------------------------------------------- encoder

  /** The one's complement sum the UDP checksum of `udp4pkt` complements: pseudo-header
      (addresses, protocol, UDP length), payload and UDP header with a zero checksum. */
  function UDPSum(p: seq<byte>, dest: UdpAddr, src: UdpAddr): nat {
    WordSum(To4(src.ip)) + WordSum(To4(dest.ip)) + UDPProtocolNumber + WordSum(p)
      + U16(UDPMinimumSize + |p|) + WordSum(EncodeUDP(Udp4UDPFields(p, dest, src)))
  }

  /** The IPv4 header of `udp4pkt` is its fields encoded with the complement of their sum. */
  lemma Udp4IPv4HeaderEncodes(p: seq<byte>, dest: UdpAddr, src: UdpAddr)
    ensures Udp4IPv4Header(p, dest, src) == EncodeIPv4(Udp4Fields(p, dest, src).(checksum :=
      Complement(Fold(WordSum(EncodeIPv4(Udp4Fields(p, dest, src)))))))
  {
    var f := Udp4Fields(p, dest, src);
    var h0 := EncodeIPv4(f);
    EncodeIPv4Fields(f);
    assert h0[..IPv4HeaderLength(h0)] == h0;
    SetIPv4ChecksumEncode(f, Complement(Fold(WordSum(h0))));
  }

  /** The pseudo-header checksum is the folded sum of both addresses and the protocol. */
  lemma PseudoHeaderSum(protocol: byte, src: Address, dst: Address)
    ensures PseudoHeaderChecksum(protocol, src, dst) == Fold(WordSum(src) + WordSum(dst) + protocol)
  {
    assert WordSum([0, protocol]) == protocol;
    ChecksumContinue(dst, Checksum(src, 0), WordSum(src));
    ChecksumContinue([0, protocol], Checksum(dst, Checksum(src, 0)), WordSum(src) + WordSum(dst));
  }

  /** The chained partial checksums of the UDP header add up to `UDPSum`. */
  lemma UDPChecksumChain(p: seq<byte>, dest: UdpAddr, src: UdpAddr)
    ensures var f := Udp4Fields(p, dest, src);
      var u0 := EncodeUDP(Udp4UDPFields(p, dest, src));
      var xsum := Checksum(p, PseudoHeaderChecksum(UDPProtocolNumber, f.srcAddr, f.dstAddr));
      UDPCalculateChecksum(u0, xsum, UDPLength(u0)) == Fold(UDPSum(p, dest, src))
  {
    var f := Udp4Fields(p, dest, src);
    var u := Udp4UDPFields(p, dest, src);
    var u0 := EncodeUDP(u);
    EncodeUDPFields(u);
    assert u0[..UDPMinimumSize] == u0;
    var len := U16(UDPMinimumSize + |p|);
    var pre := WordSum(f.srcAddr) + WordSum(f.dstAddr) + UDPProtocolNumber;
    var a := PseudoHeaderChecksum(UDPProtocolNumber, f.srcAddr, f.dstAddr);
    PseudoHeaderSum(UDPProtocolNumber, f.srcAddr, f.dstAddr);
    var x := Checksum(p, a);
    ChecksumContinue(p, a, pre);
    var y := Checksum(BigEndian16(len), x);
    ChecksumContinue(BigEndian16(len), x, pre + WordSum(p));
    ChecksumContinue(u0, y, pre + WordSum(p) + len);
  }

  /** The UDP header of `udp4pkt` is its fields encoded with the complement of `UDPSum`. */
  lemma Udp4UDPHeaderEncodes(p: seq<byte>, dest: UdpAddr, src: UdpAddr)
    ensures Udp4UDPHeader(p, dest, src, UDPProtocolNumber) ==
      EncodeUDP(Udp4UDPFields(p, dest, src).(checksum := Complement(Fold(UDPSum(p, dest, src)))))
  {
    UDPChecksumChain(p, dest, src);
    SetUDPChecksumEncode(Udp4UDPFields(p, dest, src), Complement(Fold(UDPSum(p, dest, src))));
  }

  /** The frame of `udp4pkt` is the encoded IPv4 header, then the encoded UDP header,
      then the payload, each header holding the complement of its own sum. */
  lemma Udp4PktLayout(p: seq<byte>, dest: UdpAddr, src: UdpAddr) returns (c1: nat, c2: nat)
    ensures c1 == Complement(Fold(WordSum(EncodeIPv4(Udp4Fields(p, dest, src)))))
    ensures c2 == Complement(Fold(UDPSum(p, dest, src)))
    ensures Udp4Pkt(p, dest, src) ==
      EncodeIPv4(Udp4Fields(p, dest, src).(checksum := c1))
      + EncodeUDP(Udp4UDPFields(p, dest, src).(checksum := c2)) + p
  {
    c1 := Complement(Fold(WordSum(EncodeIPv4(Udp4Fields(p, dest, src)))));
    c2 := Complement(Fold(UDPSum(p, dest, src)));
    Udp4IPv4HeaderEncodes(p, dest, src);
    EncodeIPv4Fields(Udp4Fields(p, dest, src).(checksum := c1));
    Udp4UDPHeaderEncodes(p, dest, src);
  }

  /** The first 28 bytes of a `udp4pkt` frame are its two encoded headers. */
  lemma Udp4PktHeaders(p: seq<byte>, dest: UdpAddr, src: UdpAddr) returns (f: IPv4Fields, u: UDPFields)
    ensures f.Valid() && u.Valid()
    ensures f == Udp4Fields(p, dest, src).(checksum := f.checksum)
    ensures u == Udp4UDPFields(p, dest, src).(checksum := u.checksum)
    ensures f.checksum == Complement(Fold(WordSum(EncodeIPv4(Udp4Fields(p, dest, src)))))
    ensures u.checksum == Complement(Fold(UDPSum(p, dest, src)))
    ensures Udp4Pkt(p, dest, src)[..IPv4MinimumSize] == EncodeIPv4(f)
    ensures Udp4Pkt(p, dest, src)[IPv4MinimumSize..][..UDPMinimumSize] == EncodeUDP(u)
  {
    var c1, c2 := Udp4PktLayout(p, dest, src);
    f := Udp4Fields(p, dest, src).(checksum := c1);
    u := Udp4UDPFields(p, dest, src).(checksum := c2);
    var r := Udp4Pkt(p, dest, src);
    assert r == EncodeIPv4(f) + (EncodeUDP(u) + p);
    assert r[IPv4MinimumSize..] == EncodeUDP(u) + p;
  }

  /** Every header field `udp4pkt` writes: version 4, a 20-byte header, total length
      28 + |p| and UDP length 8 + |p| (both truncated to 16 bits), TTL 30, protocol 17,
      the source and destination addresses and ports. */
  lemma {:induction false} Udp4PktFields(p: seq<byte>, dest: UdpAddr, src: UdpAddr)
    ensures var r := Udp4Pkt(p, dest, src);
      IPv4VersionOf(r) == IPv4Version && IPv4HeaderLength(r) == IPv4MinimumSize &&
      IPv4TotalLength(r) == U16(IPv4MinimumSize + UDPMinimumSize + |p|) &&
      IPv4TTL(r) == DefaultTTL && TransportProtocol(r) == UDPProtocolNumber &&
      SourceAddress(r) == AddrBytes(To4(src.ip)) && DestinationAddress(r) == AddrBytes(To4(dest.ip)) &&
      SourcePort(r[IPv4MinimumSize..]) == U16(src.port) &&
      DestinationPort(r[IPv4MinimumSize..]) == U16(dest.port) &&
      UDPLength(r[IPv4MinimumSize..]) == U16(UDPMinimumSize + |p|)
  {
    var f, u := Udp4PktHeaders(p, dest, src);
    DecodeFrameHeaders(Udp4Pkt(p, dest, src), f, u);
  }

  /** While the payload fits, the two length fields hold the exact lengths. */
  lemma Udp4PktLengths(p: seq<byte>, dest: UdpAddr, src: UdpAddr)
    requires |p| <= 0xFFFF - IPv4MinimumSize - UDPMinimumSize
    ensures var r := Udp4Pkt(p, dest, src);
      IPv4TotalLength(r) == |r| && UDPLength(r[IPv4MinimumSize..]) == UDPMinimumSize + |p|
  {
    Udp4PktFields(p, dest, src);
  }

  /** The IPv4 header of a frame built by `udp4pkt` passes the receiver's checksum test. */
  lemma {:induction false} Udp4PktIPv4Checksum(p: seq<byte>, dest: UdpAddr, src: UdpAddr)
    ensures var r := Udp4Pkt(p, dest, src);
      IPv4HeaderLength(r) <= |r| && IPv4ChecksumValid(r)
  {
    var f, u := Udp4PktHeaders(p, dest, src);
    assert f.(checksum := 0) == Udp4Fields(p, dest, src);
    ComplementedHeaderVerifies(Udp4Pkt(p, dest, src), f);
  }

  /** The UDP datagram of a frame built by `udp4pkt` passes the receiver's checksum test,
      with the pseudo-header taken from the frame's own IPv4 header. */
  lemma {:induction false} Udp4PktUDPChecksum(p: seq<byte>, dest: UdpAddr, src: UdpAddr)
    ensures var r := Udp4Pkt(p, dest, src);
      IPv4HeaderLength(r) == IPv4MinimumSize && IPv4MinimumSize + UDPMinimumSize <= |r| &&
      UDPChecksumValid(r)
  {
    var r := Udp4Pkt(p, dest, src);
    var f, u := Udp4PktHeaders(p, dest, src);
    DecodeFrameHeaders(r, f, u);
    assert f.ihl == IPv4MinimumSize && f.protocol == UDPProtocolNumber;
    assert f.srcAddr == To4(src.ip) && f.dstAddr == To4(dest.ip);
    assert u.(checksum := 0) == Udp4UDPFields(p, dest, src);
    assert r[IPv4HeaderLength(r) + UDPMinimumSize..] == p;
    assert WordSum(SourceAddress(r)) + WordSum(DestinationAddress(r)) + TransportProtocol(r)
      + u.length + WordSum(EncodeUDP(u.(checksum := 0)))
      + WordSum(r[IPv4HeaderLength(r) + UDPMinimumSize..]) == UDPSum(p, dest, src);
    ComplementedSegmentVerifies(r, u, UDPSum(p, dest, src));
  }

  // ---------------------------------------------------------------- decoder

  /** The address ReadFrom reports for a frame `udp4pkt` built for `dest`: the IPv4
      address as written into the header and the port truncated to 16 bits. */
  function ReceivedAddr(dest: UdpAddr): (a: UdpAddr)
    ensures dest.ip.Some? && 0 <= dest.port < 0x10000 ==> a == dest
  {
    UdpAddr(Some(AddrBytes(To4(dest.ip))), U16(dest.port))
  }

  /** A frame with a 20-byte IPv4 header, the UDP protocol number and room for a UDP
      header decodes to its IPv4 destination, its UDP destination port and the bytes
      after the UDP header. */
  lemma {:induction false} ParseUDPFrame(r: seq<byte>)
    requires |r| >= IPv4MinimumSize + UDPMinimumSize
    requires IPv4HeaderLength(r) == IPv4MinimumSize && TransportProtocol(r) == UDPProtocolNumber
    ensures WellFormed(r)
    ensures Parse(r) ==
      Some(Datagram(UdpAddr(Some(DestinationAddress(r)), DestinationPort(r[IPv4MinimumSize..])),
                    r[IPv4MinimumSize + UDPMinimumSize..]))
  {
    var ihl := IPv4HeaderLength(r);
    assert TransportProtocol(r[..ihl]) == TransportProtocol(r);
    assert DestinationAddress(r[..ihl]) == DestinationAddress(r);
    var seg := r[ihl..ihl + UDPMinimumSize];
    assert seg[2] == r[IPv4MinimumSize..][2] && seg[3] == r[IPv4MinimumSize..][3];
  }

  /** A frame built by `udp4pkt` decodes to its destination address and its payload. */
  lemma {:induction false} Udp4PktParses(p: seq<byte>, dest: UdpAddr, src: UdpAddr)
    ensures WellFormed(Udp4Pkt(p, dest, src))
    ensures Parse(Udp4Pkt(p, dest, src)) == Some(Datagram(ReceivedAddr(dest), p))
  {
    Udp4PktFields(p, dest, src);
    ParseUDPFrame(Udp4Pkt(p, dest, src));
  }

  /** Bytes appended to a UDP frame with a 20-byte IPv4 header decode as more payload,
      to the same address. */
  lemma {:induction false} ParsePadded(r: seq<byte>, pad: seq<byte>)
    requires |r| >= IPv4MinimumSize + UDPMinimumSize
    requires IPv4HeaderLength(r) == IPv4MinimumSize && TransportProtocol(r) == UDPProtocolNumber
    ensures WellFormed(r) && WellFormed(r + pad)
    ensures Parse(r + pad) == Some(Datagram(Parse(r).value.to, Parse(r).value.payload + pad))
  {
    var q := r + pad;
    assert q[0] == r[0] && q[9] == r[9];
    ParseUDPFrame(r);
    ParseUDPFrame(q);
    assert q[16..20] == r[16..20];
    assert q[IPv4MinimumSize..][2] == r[IPv4MinimumSize..][2];
    assert q[IPv4MinimumSize..][3] == r[IPv4MinimumSize..][3];
    assert q[IPv4MinimumSize + UDPMinimumSize..] == r[IPv4MinimumSize + UDPMinimumSize..] + pad;
  }

  /** Bytes that follow a `udp4pkt` frame on the link (padding, say) come back as part
      of the payload: the decoder reads neither the IPv4 total length nor the UDP length. */
  lemma {:induction false} PaddingIsPayload(p: seq<byte>, dest: UdpAddr, src: UdpAddr, pad: seq<byte>)
    ensures WellFormed(Udp4Pkt(p, dest, src) + pad)
    ensures Parse(Udp4Pkt(p, dest, src) + pad) == Some(Datagram(ReceivedAddr(dest), p + pad))
  {
    Udp4PktFields(p, dest, src);
    Udp4PktParses(p, dest, src);
    ParsePadded(Udp4Pkt(p, dest, src), pad);
  }

  /** Where ReadFrom finds things in a frame `f`: the IHL nibble of the first byte gives
      the header length, the protocol byte decides UDP, the destination address is at
      bytes 16 to 19 and the destination port follows the IPv4 header; the payload starts
      after the UDP header, and the first `capacity` payload bytes survive the read
      buffer's truncation. */
  lemma AcceptLayout(f: seq<byte>, bound: Option<UdpAddr>, capacity: nat)
    requires WellFormed(f)
    ensures var ihl := IPv4HeaderLength(f);
      var d := Accept(f, bound, capacity);
      (d.Some? <==>
         (TransportProtocol(f) == UDPProtocolNumber &&
          UdpMatch(UdpAddr(Some(f[16..20]), Uint16At(f, ihl + 2)), bound))) &&
      (d.Some? ==>
         d.value.to == UdpAddr(Some(f[16..20]), Uint16At(f, ihl + 2)) &&
         var n := Min(capacity, |f| - ihl - UDPMinimumSize);
         n == Min(capacity, |d.value.payload|) &&
         d.value.payload[..n] == f[ihl + UDPMinimumSize..ihl + UDPMinimumSize + n])
  {
    var g := Receive(Frame(f), ReadBufferSize(capacity)).value;
    DeliveredWellFormed(f, capacity);
    var ihl := IPv4HeaderLength(f);
    assert g[0] == f[0] && g[9] == f[9];
    assert g[..ihl][9] == f[9];
    if f[9] == UDPProtocolNumber {
      assert g[..ihl][16..20] == f[16..20];
      assert g[ihl..ihl + UDPMinimumSize][2] == f[ihl + 2] && g[ihl..ihl + UDPMinimumSize][3] == f[ihl + 3];
    }
  }

  /** A frame at the head of the queue that fits the read buffer, decodes to `d` and
      passes the filter is the one ReadFrom returns, after consuming only it. */
  lemma {:induction false} ScanDelivers(f: seq<byte>, d: Datagram, bound: Option<UdpAddr>, capacity: nat, rest: seq<Incoming>)
    requires WellFormed(f) && |f| <= ReadBufferSize(capacity)
    requires Parse(f) == Some(d) && UdpMatch(d.to, bound)
    requires AllWellFormed(rest)
    ensures AllWellFormed([Frame(f)] + rest)
    ensures Scan([Frame(f)] + rest, bound, capacity) == (1, Ok(d))
  {
    var inbox := [Frame(f)] + rest;
    assert forall i :: 1 <= i < |inbox| ==> inbox[i] == rest[i - 1];
    assert Receive(Frame(f), ReadBufferSize(capacity)) == Ok(f);
    assert inbox[0] == Frame(f);
  }

  /** Decoding a frame built by `udp4pkt`, with a read buffer at least as large as the
      payload and a filter its destination passes, yields the payload and the destination
      address, whatever the queue holds behind it. */
  lemma RoundTrip(p: seq<byte>, dest: UdpAddr, src: UdpAddr, bound: Option<UdpAddr>, capacity: nat, rest: seq<Incoming>)
    requires UdpMatch(ReceivedAddr(dest), bound) && |p| <= capacity
    requires AllWellFormed(rest)
    ensures AllWellFormed([Frame(Udp4Pkt(p, dest, src))] + rest)
    ensures Scan([Frame(Udp4Pkt(p, dest, src))] + rest, bound, capacity) == (1, Ok(Datagram(ReceivedAddr(dest), p)))
  {
    Udp4PktParses(p, dest, src);
    ScanDelivers(Udp4Pkt(p, dest, src), Datagram(ReceivedAddr(dest), p), bound, capacity, rest);
  }

  /** The outcome ReadFrom returns for a read outcome it does not skip. */
  function Outcome(item: Incoming, bound: Option<UdpAddr>, capacity: nat): Result<Datagram, Error>
    requires item.Frame? ==> WellFormed(item.bytes)
    requires !Skipped(item, bound, capacity)
  {
    match item
    case Failure(e) => Err(e)
    case Frame(f) => Ok(Accept(f, bound, capacity).value)
  }

  /** ReadFrom skips, without error, every read outcome before the first that is a read
      error or an accepted frame, consumes that one too and returns its outcome. */
  lemma {:induction false} ScanFirst(inbox: seq<Incoming>, bound: Option<UdpAddr>, capacity: nat, j: nat)
    requires AllWellFormed(inbox) && j < |inbox|
    requires forall i :: 0 <= i < j ==> Skipped(inbox[i], bound, capacity)
    requires !Skipped(inbox[j], bound, capacity)
    ensures Scan(inbox, bound, capacity) == (j + 1, Outcome(inbox[j], bound, capacity))
    decreases j
  {
    if j > 0 {
      var tail := inbox[1..];
      assert forall i :: 0 <= i < j - 1 ==> tail[i] == inbox[i + 1];
      ScanFirst(tail, bound, capacity, j - 1);
    }
  }

  /** When every queued outcome is skipped, ReadFrom drains the queue and then fails as
      on a closed connection. */
  lemma {:induction false} ScanExhausted(inbox: seq<Incoming>, bound: Option<UdpAddr>, capacity: nat)
    requires AllWellFormed(inbox)
    requires forall i :: 0 <= i < |inbox| ==> Skipped(inbox[i], bound, capacity)
    ensures Scan(inbox, bound, capacity) == (|inbox|, Err(Closed))
    decreases |inbox|
  {
    if |inbox| > 0 {
      var tail := inbox[1..];
      assert forall i :: 0 <= i < |tail| ==> tail[i] == inbox[i + 1];
      ScanExhausted(tail, bound, capacity);
    }
  }

  /** A frame that is not UDP, followed by a frame that `udp4pkt` built for an address
      the filter passes: the first is dropped and the second returned in the same call. */
  lemma DiscardThenDeliver(f: seq<byte>, p: seq<byte>, dest: UdpAddr, src: UdpAddr, bound: Option<UdpAddr>, capacity: nat)
    requires WellFormed(f) && TransportProtocol(f) != UDPProtocolNumber
    requires UdpMatch(ReceivedAddr(dest), bound) && |p| <= capacity
    ensures AllWellFormed([Frame(f), Frame(Udp4Pkt(p, dest, src))])
    ensures Scan([Frame(f), Frame(Udp4Pkt(p, dest, src))], bound, capacity) == (2, Ok(Datagram(ReceivedAddr(dest), p)))
  {
    AcceptLayout(f, bound, capacity);
    RoundTrip(p, dest, src, bound, capacity, []);
    var inbox := [Frame(f), Frame(Udp4Pkt(p, dest, src))];
    assert inbox[1..] == [Frame(Udp4Pkt(p, dest, src))] + [];
  }

  /** The address filter on four cases: a wildcard IP compares only the
      port, an exact IP compares both. */
  lemma UdpMatchExamples()
    ensures UdpMatch(UdpAddr(Some([10, 0, 0, 5]), 68), Some(UdpAddr(None, 68)))
    ensures !UdpMatch(UdpAddr(Some([10, 0, 0, 5]), 67), Some(UdpAddr(None, 68)))
    ensures UdpMatch(UdpAddr(Some([10, 0, 0, 5]), 68), Some(UdpAddr(Some([10, 0, 0, 5]), 68)))
    ensures !UdpMatch(UdpAddr(Some([10, 0, 0, 9]), 68), Some(UdpAddr(Some([10, 0, 0, 5]), 68)))
  {
    var a: seq<byte>, b: seq<byte> := [10, 0, 0, 9], [10, 0, 0, 5];
    assert a[3] != b[3];
  }
}
