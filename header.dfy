/** Byte layout of the IPv4 header (section 3.1 of RFC 791) and of the UDP header
    (RFC 768), with the field accessors and checksum helpers the connection uses. */
module Header {
  import opened InternetChecksum

  const IPv4MinimumSize: nat := 20
  const IPv4MaximumHeaderSize: nat := 60
  const UDPMinimumSize: nat := 8
  const UDPProtocolNumber: byte := 17
  const IPv4Version: nat := 4

  /** Go's `uint16(x)` conversion of an `int`: two's complement truncation, which is
      the Euclidean remainder modulo 2^16. */
  function U16(x: int): (r: nat)
    ensures r < 0x10000
    ensures 0 <= x < 0x10000 ==> r == x
  {
    x % 0x10000
  }

  /** A 16-bit value in network byte order. */
  function BigEndian16(x: nat): (r: seq<byte>)
    requires x < 0x10000
    ensures |r| == 2 && Uint16At(r, 0) == x && WordSum(r) == x
  {
    [x / 256, x % 256]
  }

  /** The 16-bit value stored in network byte order at `off`. */
  function Uint16At(s: seq<byte>, off: nat): (r: nat)
    requires off + 2 <= |s|
    ensures r < 0x10000
  {
    (s[off] as int) * 256 + s[off + 1]
  }

  /** A network address as the header codec holds it: the four octets of an IPv4
      address, or the empty address (what a nil IP converts to). */
  type Address = a: seq<byte> | |a| == 0 || |a| == 4

  /** The four octets an address occupies in a header: copying the empty address
      into a zeroed slot leaves 0.0.0.0. */
  function AddrBytes(a: Address): (r: seq<byte>)
    ensures |r| == 4 && WordSum(r) == WordSum(a)
  {
    if |a| == 4 then a else [0, 0, 0, 0]
  }

  // ---------------------------------------------------------------- IPv4

  /** The IPv4 header fields the connection sets; TOS, identification, flags and
      fragment offset are left at zero. `ihl` is in bytes, as the codec takes it. */
  datatype IPv4Fields = IPv4Fields(
    ihl: nat,
    totalLength: nat,
    ttl: byte,
    protocol: byte,
    checksum: nat,
    srcAddr: Address,
    dstAddr: Address)
  {
    predicate Valid() {
      ihl % 4 == 0 && ihl <= IPv4MaximumHeaderSize && totalLength < 0x10000 && checksum <= AllOnes
    }
  }

  /** The first ten bytes: version/IHL, TOS, total length, identification, flags and
      fragment offset, TTL, protocol. */
  function IPv4Prefix(f: IPv4Fields): (r: seq<byte>)
    requires f.Valid()
    ensures |r| == 10
  {
    [IPv4Version * 16 + (f.ihl / 4) % 16, 0] + BigEndian16(f.totalLength) + [0, 0, 0, 0] + [f.ttl, f.protocol]
  }

  /** `IPv4.Encode`: the 20-byte header holding the given fields. */
  function EncodeIPv4(f: IPv4Fields): (r: seq<byte>)
    requires f.Valid()
    ensures |r| == IPv4MinimumSize
  {
    IPv4Prefix(f) + BigEndian16(f.checksum) + AddrBytes(f.srcAddr) + AddrBytes(f.dstAddr)
  }

  /** `IPv4.HeaderLength`: the IHL nibble of the first byte, times four. */
  function IPv4HeaderLength(b: seq<byte>): (r: nat)
    requires |b| >= 1
    ensures r <= IPv4MaximumHeaderSize && r % 4 == 0
  {
    (b[0] % 16) * 4
  }

  function IPv4VersionOf(b: seq<byte>): nat
    requires |b| >= 1
  {
    b[0] / 16
  }

  function IPv4TotalLength(b: seq<byte>): nat
    requires |b| >= 4
  {
    Uint16At(b, 2)
  }

  function IPv4TTL(b: seq<byte>): byte
    requires |b| >= 9
  {
    b[8]
  }

  /** `IPv4.TransportProtocol`. */
  function TransportProtocol(b: seq<byte>): byte
    requires |b| >= 10
  {
    b[9]
  }

  function IPv4Checksum(b: seq<byte>): nat
    requires |b| >= 12
  {
    Uint16At(b, 10)
  }

  function SourceAddress(b: seq<byte>): seq<byte>
    requires |b| >= 16
  {
    b[12..16]
  }

  /** `IPv4.DestinationAddress`. */
  function DestinationAddress(b: seq<byte>): seq<byte>
    requires |b| >= IPv4MinimumSize
  {
    b[16..20]
  }

  /** `IPv4.CalculateChecksum`: the one's complement sum of the header bytes. */
  function IPv4CalculateChecksum(b: seq<byte>): (r: nat)
    requires |b| >= 1 && IPv4HeaderLength(b) <= |b|
    ensures r <= AllOnes && r % AllOnes == WordSum(b[..IPv4HeaderLength(b)]) % AllOnes
  {
    Checksum(b[..IPv4HeaderLength(b)], 0)
  }

  /** `IPv4.SetChecksum`: overwrites bytes 10 and 11. */
  function SetIPv4Checksum(b: seq<byte>, c: nat): (r: seq<byte>)
    requires |b| >= 12 && c <= AllOnes
    ensures |r| == |b|
  {
    b[..10] + BigEndian16(c) + b[12..]
  }

  /** Decoding an encoded header gives back every field, and its words sum to the
      sum with a zero checksum plus the checksum. */
  lemma EncodeIPv4Fields(f: IPv4Fields)
    requires f.Valid()
    ensures var h := EncodeIPv4(f);
      IPv4VersionOf(h) == IPv4Version && IPv4HeaderLength(h) == f.ihl &&
      IPv4TotalLength(h) == f.totalLength && IPv4TTL(h) == f.ttl &&
      TransportProtocol(h) == f.protocol && IPv4Checksum(h) == f.checksum &&
      SourceAddress(h) == AddrBytes(f.srcAddr) && DestinationAddress(h) == AddrBytes(f.dstAddr)
  {
  }

  /** Setting the checksum of an encoded header is encoding it with that checksum. */
  lemma SetIPv4ChecksumEncode(f: IPv4Fields, c: nat)
    requires f.Valid() && c <= AllOnes
    ensures SetIPv4Checksum(EncodeIPv4(f), c) == EncodeIPv4(f.(checksum := c))
  {
    var h := EncodeIPv4(f);
    assert h[..10] == IPv4Prefix(f);
    assert h[12..] == AddrBytes(f.srcAddr) + AddrBytes(f.dstAddr);
  }

  /** The word sum of an encoded header is that of the header with a zero checksum
      plus the checksum itself. */
  lemma IPv4WordSum(f: IPv4Fields)
    requires f.Valid()
    ensures WordSum(EncodeIPv4(f)) == WordSum(EncodeIPv4(f.(checksum := 0))) + f.checksum
  {
    var g := f.(checksum := 0);
    var tail := AddrBytes(f.srcAddr) + AddrBytes(f.dstAddr);
    assert EncodeIPv4(f) == IPv4Prefix(f) + (BigEndian16(f.checksum) + tail);
    assert EncodeIPv4(g) == IPv4Prefix(g) + (BigEndian16(0) + tail);
    assert IPv4Prefix(f) == IPv4Prefix(g);
    WordSumAppend(IPv4Prefix(f), BigEndian16(f.checksum) + tail);
    WordSumAppend(IPv4Prefix(g), BigEndian16(0) + tail);
    WordSumAppend(BigEndian16(f.checksum), tail);
    WordSumAppend(BigEndian16(0), tail);
  }

  // ---------------------------------------------------------------- UDP

  /** The UDP header fields, all 16-bit. */
  datatype UDPFields = UDPFields(srcPort: nat, dstPort: nat, length: nat, checksum: nat)
  {
    predicate Valid() {
      srcPort < 0x10000 && dstPort < 0x10000 && length < 0x10000 && checksum <= AllOnes
    }
  }

  /** `UDP.Encode`: source port, destination port, length, checksum. */
  function EncodeUDP(f: UDPFields): (r: seq<byte>)
    requires f.Valid()
    ensures |r| == UDPMinimumSize
  {
    BigEndian16(f.srcPort) + BigEndian16(f.dstPort) + BigEndian16(f.length) + BigEndian16(f.checksum)
  }

  function SourcePort(b: seq<byte>): nat
    requires |b| >= 2
  {
    Uint16At(b, 0)
  }

  /** `UDP.DestinationPort`. */
  function DestinationPort(b: seq<byte>): nat
    requires |b| >= 4
  {
    Uint16At(b, 2)
  }

  /** `UDP.Length`. */
  function UDPLength(b: seq<byte>): nat
    requires |b| >= 6
  {
    Uint16At(b, 4)
  }

  function UDPChecksum(b: seq<byte>): nat
    requires |b| >= UDPMinimumSize
  {
    Uint16At(b, 6)
  }

  /** `UDP.SetChecksum`: overwrites bytes 6 and 7. */
  function SetUDPChecksum(b: seq<byte>, c: nat): (r: seq<byte>)
    requires |b| >= UDPMinimumSize && c <= AllOnes
    ensures |r| == |b|
  {
    b[..6] + BigEndian16(c) + b[8..]
  }

  /** `PseudoHeaderChecksum`: the sum of the source address, the destination address
      and the protocol number as a zero-extended word; the length is added later. */
  function PseudoHeaderChecksum(protocol: byte, src: Address, dst: Address): (r: nat)
    ensures r <= AllOnes
    ensures r == 0 <==> WordSum(src) + WordSum(dst) + protocol == 0
  {
    assert WordSum([0, protocol]) == protocol;
    Checksum([0, protocol], Checksum(dst, Checksum(src, 0)))
  }

  /** `UDP.CalculateChecksum`: adds the length word of the pseudo-header and the eight
      header bytes to a partial sum. */
  function UDPCalculateChecksum(b: seq<byte>, partial: nat, totalLen: nat): (r: nat)
    requires |b| >= UDPMinimumSize && totalLen < 0x10000
    ensures r <= AllOnes
    ensures r == 0 <==> partial + totalLen + WordSum(b[..UDPMinimumSize]) == 0
  {
    Checksum(b[..UDPMinimumSize], Checksum(BigEndian16(totalLen), partial))
  }

  // ---------------------------------------------------------------- receiver checks

  /** The check a receiver makes on an IPv4 header (RFC 1071): its words, the stored
      checksum included, add up to all ones. */
  predicate IPv4ChecksumValid(b: seq<byte>)
    requires |b| >= 1 && IPv4HeaderLength(b) <= |b|
  {
    IPv4CalculateChecksum(b) == AllOnes
  }

  /** The pseudo-header of RFC 768 for the UDP datagram carried in `frame`: source and
      destination address, a zero byte, the protocol, and the UDP length field. */
  function UDPPseudoHeader(frame: seq<byte>): (r: seq<byte>)
    requires |frame| >= 1 && IPv4MinimumSize <= IPv4HeaderLength(frame)
    requires IPv4HeaderLength(frame) + UDPMinimumSize <= |frame|
    ensures |r| == 12
  {
    SourceAddress(frame) + DestinationAddress(frame) + [0, TransportProtocol(frame)]
      + BigEndian16(UDPLength(frame[IPv4HeaderLength(frame)..]))
  }

  /** The check a receiver makes on a UDP datagram (RFC 768): pseudo-header, UDP header
      and data, the stored checksum included, add up to all ones. */
  predicate UDPChecksumValid(frame: seq<byte>)
    requires |frame| >= 1 && IPv4MinimumSize <= IPv4HeaderLength(frame)
    requires IPv4HeaderLength(frame) + UDPMinimumSize <= |frame|
  {
    Checksum(UDPPseudoHeader(frame) + frame[IPv4HeaderLength(frame)..], 0) == AllOnes
  }

  /** The words a receiver sums for the UDP checksum of `frame`: both addresses, the
      protocol, the UDP length field, and the UDP header and data. */
  lemma UDPCheckedSum(frame: seq<byte>)
    requires |frame| >= 1 && IPv4MinimumSize <= IPv4HeaderLength(frame)
    requires IPv4HeaderLength(frame) + UDPMinimumSize <= |frame|
    ensures var seg := frame[IPv4HeaderLength(frame)..];
      WordSum(UDPPseudoHeader(frame) + seg) ==
        WordSum(SourceAddress(frame)) + WordSum(DestinationAddress(frame)) + TransportProtocol(frame)
        + UDPLength(seg) + WordSum(seg)
  {
    var seg := frame[IPv4HeaderLength(frame)..];
    var a, b := SourceAddress(frame), DestinationAddress(frame);
    var pr: seq<byte> := [0, TransportProtocol(frame)];
    var len := BigEndian16(UDPLength(seg));
    assert UDPPseudoHeader(frame) == a + b + pr + len;
    WordSumAppend(a, b);
    WordSumAppend(a + b, pr);
    WordSumAppend(a + b + pr, len);
    WordSumAppend(a + b + pr + len, seg);
  }

  /** Reading the fields back from a frame that starts with an encoded IPv4 header and
      an encoded UDP header gives the encoded fields. */
  lemma {:induction false} DecodeFrameHeaders(r: seq<byte>, f: IPv4Fields, u: UDPFields)
    requires f.Valid() && u.Valid()
    requires |r| >= IPv4MinimumSize + UDPMinimumSize
    requires r[..IPv4MinimumSize] == EncodeIPv4(f)
    requires r[IPv4MinimumSize..][..UDPMinimumSize] == EncodeUDP(u)
    ensures IPv4VersionOf(r) == IPv4Version && IPv4HeaderLength(r) == f.ihl &&
      IPv4TotalLength(r) == f.totalLength && IPv4TTL(r) == f.ttl &&
      TransportProtocol(r) == f.protocol && IPv4Checksum(r) == f.checksum &&
      SourceAddress(r) == AddrBytes(f.srcAddr) && DestinationAddress(r) == AddrBytes(f.dstAddr)
    ensures var seg := r[IPv4MinimumSize..];
      SourcePort(seg) == u.srcPort && DestinationPort(seg) == u.dstPort &&
      UDPLength(seg) == u.length && UDPChecksum(seg) == u.checksum
  {
    var h, seg := r[..IPv4MinimumSize], r[IPv4MinimumSize..];
    EncodeIPv4Fields(f);
    EncodeUDPFields(u);
    assert h[..12] == r[..12] && h[12..16] == r[12..16] && h[16..20] == r[16..20];
    assert seg[..UDPMinimumSize][..8] == seg[..8];
  }

  /** A 20-byte header whose checksum field holds the complement of the folded sum of
      the header with a zero checksum passes the receiver's test. */
  lemma {:induction false} ComplementedHeaderVerifies(b: seq<byte>, f: IPv4Fields)
    requires f.Valid() && f.ihl == IPv4MinimumSize
    requires f.checksum == Complement(Fold(WordSum(EncodeIPv4(f.(checksum := 0)))))
    requires |b| >= IPv4MinimumSize && b[..IPv4MinimumSize] == EncodeIPv4(f)
    ensures IPv4HeaderLength(b) == IPv4MinimumSize && IPv4ChecksumValid(b)
  {
    EncodeIPv4Fields(f);
    assert b[0] == EncodeIPv4(f)[0];
    IPv4WordSum(f);
    ComplementVerifies(WordSum(EncodeIPv4(f.(checksum := 0))));
  }

  /** A UDP datagram whose header checksum holds the complement of the folded sum of the
      pseudo-header, the header with a zero checksum and the data passes the receiver's
      test. */
  lemma {:induction false} ComplementedSegmentVerifies(frame: seq<byte>, u: UDPFields, sum: nat)
    requires |frame| >= 1 && IPv4MinimumSize <= IPv4HeaderLength(frame)
    requires IPv4HeaderLength(frame) + UDPMinimumSize <= |frame|
    requires u.Valid() && frame[IPv4HeaderLength(frame)..][..UDPMinimumSize] == EncodeUDP(u)
    requires sum == WordSum(SourceAddress(frame)) + WordSum(DestinationAddress(frame))
      + TransportProtocol(frame) + u.length + WordSum(EncodeUDP(u.(checksum := 0)))
      + WordSum(frame[IPv4HeaderLength(frame) + UDPMinimumSize..])
    requires u.checksum == Complement(Fold(sum))
    ensures UDPChecksumValid(frame)
  {
    var ihl := IPv4HeaderLength(frame);
    var seg := frame[ihl..];
    var data := frame[ihl + UDPMinimumSize..];
    assert seg == EncodeUDP(u) + data;
    WordSumAppend(EncodeUDP(u), data);
    EncodeUDPFields(u);
    assert seg[..6] == EncodeUDP(u)[..6];
    UDPWordSum(u);
    UDPCheckedSum(frame);
    ComplementVerifies(sum);
  }

  /** Decoding an encoded UDP header gives back every field. */
  lemma EncodeUDPFields(f: UDPFields)
    requires f.Valid()
    ensures var h := EncodeUDP(f);
      SourcePort(h) == f.srcPort && DestinationPort(h) == f.dstPort &&
      UDPLength(h) == f.length && UDPChecksum(h) == f.checksum
  {
  }

  /** Setting the checksum of an encoded UDP header is encoding it with that checksum. */
  lemma SetUDPChecksumEncode(f: UDPFields, c: nat)
    requires f.Valid() && c <= AllOnes
    ensures SetUDPChecksum(EncodeUDP(f), c) == EncodeUDP(f.(checksum := c))
  {
    var h := EncodeUDP(f);
    assert h[..6] == BigEndian16(f.srcPort) + BigEndian16(f.dstPort) + BigEndian16(f.length);
  }

  /** The word sum of an encoded UDP header is that with a zero checksum plus the checksum. */
  lemma UDPWordSum(f: UDPFields)
    requires f.Valid()
    ensures WordSum(EncodeUDP(f)) == WordSum(EncodeUDP(f.(checksum := 0))) + f.checksum
  {
    var g := f.(checksum := 0);
    var ports := BigEndian16(f.srcPort) + BigEndian16(f.dstPort) + BigEndian16(f.length);
    WordSumAppend(ports, BigEndian16(f.checksum));
    WordSumAppend(ports, BigEndian16(0));
  }
}
