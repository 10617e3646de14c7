# Raw-socket UDP packet connection of the dhcp4 client, in Dafny

A DHCP client has to send and receive UDP datagrams before its interface has an
IP address. The `dhcp4client` package does it by speaking to the link layer
directly: `UDPPacketConn` wraps a raw packet socket and builds and parses the
IPv4 and UDP headers that the kernel's UDP stack would otherwise supply. This
project models that connection and proves what it promises:

- `udpMatch`, the filter that decides whether an inbound datagram's destination
  (IP, port) matches the address the connection is "bound" to;
- `udp4pkt`, the encoder that puts a payload behind a 20-byte IPv4 header
  (section 3.1 of RFC 791) and an 8-byte UDP header (RFC 768), both with the
  Internet checksum of RFC 1071;
- `UDPPacketConn.ReadFrom`, the loop that reads raw frames, skips the
  variable-length IPv4 header, drops non-UDP frames and frames the filter
  rejects, and copies the first accepted payload into the caller's buffer;
- `UDPPacketConn.WriteTo`, which rejects non-UDP addresses, frames the payload
  with the bound address as source and broadcasts it to ff:ff:ff:ff:ff:ff.

Files and modules:

- `wrappers.dfy` (`Wrappers`): `Option` and `Result`.
- `checksum.dfy` (`InternetChecksum`): the one's complement sum of RFC 1071
  (word sum, end-around carry, complement) and its algebra.
- `header.dfy` (`Header`): the IPv4 and UDP header layouts, field accessors,
  checksum setters, and the receiver-side checksum tests.
- `transport.dfy` (`RawTransport`): the raw packet socket, as a class holding a
  finite queue of read outcomes and a log of sent frames.
- `conn.dfy` (`Conn`): addresses, `UdpMatch`, `Udp4Pkt`, the decoder
  specification `Scan`, and the class `UDPPacketConn` with `ReadFrom` and
  `WriteTo`.
- `properties.dfy` (`ConnProperties`): header fields and checksums of the
  encoded frame, which frame `ReadFrom` returns, and the encode/decode round trip.

Modelling choices:

- Bytes are integers in 0..255. Go's `uint16(x)` conversion is `U16(x) = x % 65536`
  (Dafny's `%` is Euclidean, which is exactly two's complement truncation), so
  ports and length fields are truncated explicitly, not assumed to fit.
- An IP is `Option<four octets>`; None is a nil `net.IP`. `IP.To4` of a nil IP
  is the empty codec address, which leaves 0.0.0.0 in the header and adds
  nothing to the checksum.
- `boundAddr` is `Option<UdpAddr>` (None is a nil pointer) and is a `const`
  field: the connection never changes it.
- The raw socket is `RawConn`: each read pops the next queued outcome (a frame
  or an error) and hands over at most as many bytes as the read buffer holds;
  when the queue is empty, reads fail with `Closed`, which is how the model
  bounds the source's endless loop. Writes append to `sent` and return the
  frame length, or fail with a configured error.
- `ReadFrom` is proved against `Scan`, a function saying how many queued
  outcomes the call consumes and what it returns; `ScanFirst`, `ScanExhausted`,
  `AcceptLayout` and `RoundTrip` state what `Scan` does.

Places where the code departs from what its interfaces or the RFCs lead a
reader to expect; the model follows the code:

- Callers of `net.PacketConn.WriteTo` expect the returned count to be bytes of
  their own `b` (between 0 and len(b)). `UDPPacketConn.WriteTo` returns whatever
  the raw socket's `WriteTo` returns, which counts the whole frame: 28 bytes more
  than the payload. The model's `UDPPacketConn.WriteTo` returns the transport's
  result unchanged.
- RFC 768 asks a sender to transmit an all-ones checksum when the computed one
  is zero. `udp4pkt` stores the complement as it is, so a datagram whose sum
  folds to 0xFFFF carries checksum 0. The model does the same;
  `Udp4PktUDPChecksum` shows the stored value still passes the receiver's sum test.
- `net.PacketConn.ReadFrom` documents its address result as the return address
  on the packet. `UDPPacketConn.ReadFrom` returns the packet's destination IP
  and port instead (conn_linux.go:127-134); the model's `Received.addr` is that
  destination, and `ReceivedAddr` shows it is the `dest` a frame was built for.
- `ReadFrom` reads neither the IPv4 total length nor the UDP length, so bytes
  behind a short datagram, such as link-layer padding, are returned as payload.
  `PaddingIsPayload` shows this for frames built by `udp4pkt`.
- A frame whose IHL nibble is 0, 1 or 2 makes `ipHdr.TransportProtocol()`
  (conn_linux.go:122) index byte 9 of a header shorter than 10 bytes, which
  panics: one such frame on the link crashes the reader. The model's `ReadFrom`
  requires frames that do not (`WellFormed`).

## Model

| member | source | states |
|---|---|---|
| `InternetChecksum.Fold` | vendor/github.com/u-root/dhcp4/dhcp4client/conn_linux.go:171 | the one's complement value of a sum: it fits in 16 bits and is zero only for a zero sum |
| `InternetChecksum.FoldResidue` | vendor/github.com/u-root/dhcp4/dhcp4client/conn_linux.go:171 | the folded value is congruent to the sum modulo 0xFFFF, so folding loses nothing the one's complement sum keeps |
| `InternetChecksum.Carry` | vendor/github.com/u-root/dhcp4/dhcp4client/conn_linux.go:171 | RFC 1071's end-around carry fold (add the high 16 bits back into the low 16 until nothing is left over) ends in 16 bits; it is the reference `Fold` is proved equal to |
| `InternetChecksum.CarryIsFold` | vendor/github.com/u-root/dhcp4/dhcp4client/conn_linux.go:171 | the RFC 1071 carry fold computes exactly the one's complement value `Fold` of its input |
| `InternetChecksum.Complement` | vendor/github.com/u-root/dhcp4/dhcp4client/conn_linux.go:171 | `^x` on 16 bits: x plus its complement is all ones |
| `InternetChecksum.Checksum` | vendor/github.com/u-root/dhcp4/dhcp4client/conn_linux.go:180 | `header.Checksum`: fits in 16 bits, is congruent modulo 0xFFFF to the initial value plus the buffer's word sum, and is zero only when both are; `ChecksumContinue` and `FoldFold` show that chained calls compute one sum |
| `InternetChecksum.FoldFold` | vendor/github.com/u-root/dhcp4/dhcp4client/conn_linux.go:180-182 | folding a partial sum and then adding more equals folding the whole sum, so chained `Checksum` calls compute one sum |
| `InternetChecksum.ChecksumContinue` | vendor/github.com/u-root/dhcp4/dhcp4client/conn_linux.go:180-182 | continuing a checksum from a folded partial sum folds the total |
| `InternetChecksum.WordSumAppend` | vendor/github.com/u-root/dhcp4/dhcp4client/conn_linux.go:180-182 | the 16-bit word sum of a concatenation is the sum of the parts when the first part has even length |
| `InternetChecksum.ComplementVerifies` | vendor/github.com/u-root/dhcp4/dhcp4client/conn_linux.go:171 | a sum plus the complement of its own fold folds to all ones, the receiver's RFC 1071 test |
| `Header.U16` | vendor/github.com/u-root/dhcp4/dhcp4client/conn_linux.go:163 | Go's `uint16` conversion: below 2^16, and equal to the input when it fits |
| `Header.BigEndian16` | vendor/github.com/u-root/dhcp4/dhcp4client/conn_linux.go:170 | a 16-bit field in network byte order reads back as the same value and adds that value to the word sum |
| `Header.AddrBytes` | vendor/github.com/u-root/dhcp4/dhcp4client/conn_linux.go:166-167 | an address occupies four header bytes; the empty address leaves zeros and both add the same to the checksum |
| `Header.EncodeIPv4` | vendor/github.com/u-root/dhcp4/dhcp4client/conn_linux.go:169-170 | the encoded IPv4 header is exactly 20 bytes |
| `Header.EncodeIPv4Fields` | vendor/github.com/u-root/dhcp4/dhcp4client/conn_linux.go:161-170 | reading an encoded IPv4 header gives back version 4, the IHL, total length, TTL, protocol, checksum and both addresses |
| `Header.SetIPv4ChecksumEncode` | vendor/github.com/u-root/dhcp4/dhcp4client/conn_linux.go:171 | overwriting the checksum of an encoded header equals encoding the fields with that checksum |
| `Header.IPv4WordSum` | vendor/github.com/u-root/dhcp4/dhcp4client/conn_linux.go:171 | the word sum of an encoded header is the sum with a zero checksum field plus the stored checksum |
| `Header.IPv4HeaderLength` | vendor/github.com/u-root/dhcp4/dhcp4client/conn_linux.go:119-120 | the header length read from the IHL nibble is a multiple of 4 and at most 60 |
| `Header.TransportProtocol` | vendor/github.com/u-root/dhcp4/dhcp4client/conn_linux.go:122 | `IPv4.TransportProtocol`: byte 9 of the header (also read at line 181); `EncodeIPv4Fields` and `DecodeFrameHeaders` show it reads back the encoded protocol |
| `Header.DestinationAddress` | vendor/github.com/u-root/dhcp4/dhcp4client/conn_linux.go:128 | `IPv4.DestinationAddress`: bytes 16-19; `EncodeIPv4Fields` and `DecodeFrameHeaders` show it reads back the encoded destination |
| `Header.IPv4CalculateChecksum` | vendor/github.com/u-root/dhcp4/dhcp4client/conn_linux.go:171 | fits in 16 bits and is congruent modulo 0xFFFF to the word sum of the IHL·4 header bytes; `Udp4IPv4HeaderEncodes` shows the encoder stores its complement |
| `Header.SetIPv4Checksum` | vendor/github.com/u-root/dhcp4/dhcp4client/conn_linux.go:171 | setting the checksum keeps the header's length |
| `Header.EncodeUDP` | vendor/github.com/u-root/dhcp4/dhcp4client/conn_linux.go:173-178 | the encoded UDP header is exactly 8 bytes |
| `Header.EncodeUDPFields` | vendor/github.com/u-root/dhcp4/dhcp4client/conn_linux.go:173-178 | reading an encoded UDP header gives back both ports, the length and the checksum |
| `Header.DestinationPort` | vendor/github.com/u-root/dhcp4/dhcp4client/conn_linux.go:129 | `UDP.DestinationPort`: bytes 2-3 in network order; `EncodeUDPFields` and `DecodeFrameHeaders` show it reads back the encoded port |
| `Header.UDPLength` | vendor/github.com/u-root/dhcp4/dhcp4client/conn_linux.go:182 | `UDP.Length`: bytes 4-5 in network order; `EncodeUDPFields` and `DecodeFrameHeaders` show it reads back the encoded length |
| `Header.SetUDPChecksum` | vendor/github.com/u-root/dhcp4/dhcp4client/conn_linux.go:182 | setting the UDP checksum keeps the header's length |
| `Header.SetUDPChecksumEncode` | vendor/github.com/u-root/dhcp4/dhcp4client/conn_linux.go:182 | overwriting the UDP checksum equals encoding the fields with that checksum |
| `Header.UDPWordSum` | vendor/github.com/u-root/dhcp4/dhcp4client/conn_linux.go:182 | the word sum of an encoded UDP header is the sum with a zero checksum plus the stored checksum |
| `Header.UDPPseudoHeader` | vendor/github.com/u-root/dhcp4/dhcp4client/conn_linux.go:180-181 | the RFC 768 pseudo-header a receiver builds from a frame is 12 bytes |
| `Header.PseudoHeaderChecksum` | vendor/github.com/u-root/dhcp4/dhcp4client/conn_linux.go:180-181 | fits in 16 bits and is zero only when both addresses and the protocol are; `PseudoHeaderSum` shows it is the folded sum of both addresses and the protocol |
| `Header.UDPCalculateChecksum` | vendor/github.com/u-root/dhcp4/dhcp4client/conn_linux.go:182 | fits in 16 bits and is zero only when the partial sum, the length and the header words all are; `UDPChecksumChain` shows that chained after the pseudo-header and payload it folds the whole UDP sum |
| `Header.UDPCheckedSum` | vendor/github.com/u-root/dhcp4/dhcp4client/conn_linux.go:180-182 | the words a receiver sums for the UDP checksum are both addresses, the protocol, the UDP length field and the whole UDP header and data |
| `Header.DecodeFrameHeaders` | vendor/github.com/u-root/dhcp4/dhcp4client/conn_linux.go:169-178 | a frame that starts with an encoded IPv4 header and an encoded UDP header reads back every field of both |
| `Header.ComplementedHeaderVerifies` | vendor/github.com/u-root/dhcp4/dhcp4client/conn_linux.go:171 | a 20-byte header storing the complement of its own zero-checksum sum passes the receiver's RFC 1071 test |
| `Header.ComplementedSegmentVerifies` | vendor/github.com/u-root/dhcp4/dhcp4client/conn_linux.go:180-182 | a UDP header storing the complement of the sum of pseudo-header, zero-checksum header and data passes the receiver's RFC 768 test |
| `RawTransport.Receive` | vendor/github.com/u-root/dhcp4/dhcp4client/conn_linux.go:110-115 | a read into a buffer of a given size yields a prefix of the frame no longer than the buffer, the whole frame when it fits, and a read error unchanged |
| `RawTransport.RawConn.ReadFrom` | vendor/github.com/u-root/dhcp4/dhcp4client/conn_linux.go:111 | one read consumes exactly the next queued outcome, or fails with `Closed` on an empty queue, and touches nothing else |
| `RawTransport.RawConn.WriteTo` | vendor/github.com/u-root/dhcp4/dhcp4client/conn_linux.go:151 | one write logs exactly the frame and its hardware address and returns the frame length, or returns the configured error and logs nothing |
| `Conn.UdpMatch` | vendor/github.com/u-root/dhcp4/dhcp4client/conn_linux.go:91-99 | a nil bound address accepts everything; otherwise the port must be equal, and the IP is compared only when the bound IP is set |
| `Conn.BroadcastMac` | vendor/github.com/u-root/dhcp4/dhcp4client/conn_linux.go:21 | the hardware address ff:ff:ff:ff:ff:ff every frame is sent to (`UDPPacketConn.WriteTo`) |
| `Conn.To4` | vendor/github.com/u-root/dhcp4/dhcp4client/conn_linux.go:166-167 | `IP.To4`: a set IP is written into the header as its own four octets; a nil IP writes 0.0.0.0 and adds nothing to the checksum |
| `Conn.Udp4Fields` | vendor/github.com/u-root/dhcp4/dhcp4client/conn_linux.go:161-168 | the IPv4 fields `udp4pkt` fills in form a valid header description with a zero checksum |
| `Conn.Udp4UDPFields` | vendor/github.com/u-root/dhcp4/dhcp4client/conn_linux.go:174-178 | the UDP fields `udp4pkt` fills in are 16-bit values with a zero checksum |
| `Conn.Udp4IPv4Header` | vendor/github.com/u-root/dhcp4/dhcp4client/conn_linux.go:169-171 | the IPv4 header `udp4pkt` writes is 20 bytes (content: `ConnProperties.Udp4IPv4HeaderEncodes`) |
| `Conn.Udp4UDPHeader` | vendor/github.com/u-root/dhcp4/dhcp4client/conn_linux.go:173-182 | the UDP header `udp4pkt` writes is 8 bytes (content: `ConnProperties.Udp4UDPHeaderEncodes`) |
| `Conn.Udp4Pkt` | vendor/github.com/u-root/dhcp4/dhcp4client/conn_linux.go:154-186 | the frame is 28 + len(payload) bytes and ends with the payload unchanged |
| `Conn.DeliveredWellFormed` | vendor/github.com/u-root/dhcp4/dhcp4client/conn_linux.go:110-120 | a decodable frame stays decodable after the read buffer's truncation to 60 + 8 + len(b) bytes |
| `Conn.ReadBufferSize` | vendor/github.com/u-root/dhcp4/dhcp4client/conn_linux.go:106-110 | the read buffer `ipLen+udpLen+len(b)` = 60 + 8 + len(b); `DeliveredWellFormed` and `AcceptLayout` show it keeps frames decodable and the first len(b) payload bytes intact |
| `Conn.WellFormed` | vendor/github.com/u-root/dhcp4/dhcp4client/conn_linux.go:116-125 | the frames ReadFrom can decode: the IHL header fits, and a UDP frame holds a 20-byte header and 8 UDP bytes; kept by the read buffer's truncation (`DeliveredWellFormed`) |
| `Conn.Parse` | vendor/github.com/u-root/dhcp4/dhcp4client/conn_linux.go:116-130 | one iteration's decoding yields a datagram exactly when the protocol byte is 17, with a payload of the frame's length minus the IHL·4 header and the 8-byte UDP header; `ParseUDPFrame` gives the address and bytes |
| `Conn.Accept` | vendor/github.com/u-root/dhcp4/dhcp4client/conn_linux.go:110-133 | the datagram an iteration returns is a UDP datagram whose destination passes the filter; `AcceptLayout` gives the converse and the bytes |
| `Conn.Scan` | vendor/github.com/u-root/dhcp4/dhcp4client/conn_linux.go:109-135 | ReadFrom consumes at least one queued outcome when there is one, and never more than are queued |
| `Conn.UDPPacketConn.constructor` | vendor/github.com/u-root/dhcp4/dhcp4client/conn_linux.go:84-89 | `NewBroadcastUDPConn` keeps the given transport and bound address |
| `Conn.UDPPacketConn.ReadFrom` | vendor/github.com/u-root/dhcp4/dhcp4client/conn_linux.go:105-136 | consumes exactly the outcomes `Scan` consumes; on a read error returns it and leaves `b` alone; on a match returns min(len(b), len(payload)), the payload's prefix in `b` with the rest of `b` unchanged, and the destination address; never writes |
| `Conn.UDPPacketConn.WriteTo` | vendor/github.com/u-root/dhcp4/dhcp4client/conn_linux.go:143-152 | a non-UDP address gives `MustSupplyUdpAddr` and sends nothing; otherwise exactly `Udp4Pkt(b, addr, boundAddr)` goes to `BroadcastMac` and the transport's result is returned unchanged |
| `ConnProperties.Udp4IPv4HeaderEncodes` | vendor/github.com/u-root/dhcp4/dhcp4client/conn_linux.go:161-171 | the IPv4 header `udp4pkt` writes is its fields encoded with the complement of the header's own sum |
| `ConnProperties.PseudoHeaderSum` | vendor/github.com/u-root/dhcp4/dhcp4client/conn_linux.go:180-181 | the pseudo-header checksum is the folded sum of both addresses and the protocol number |
| `ConnProperties.UDPChecksumChain` | vendor/github.com/u-root/dhcp4/dhcp4client/conn_linux.go:180-182 | the partial sums `udp4pkt` chains (pseudo-header, payload, length, UDP header) fold to one sum over all of them |
| `ConnProperties.Udp4UDPHeaderEncodes` | vendor/github.com/u-root/dhcp4/dhcp4client/conn_linux.go:173-182 | the UDP header `udp4pkt` writes is its fields encoded with the complement of that sum |
| `ConnProperties.Udp4PktLayout` | vendor/github.com/u-root/dhcp4/dhcp4client/conn_linux.go:154-186 | the frame is IPv4 header ++ UDP header ++ payload, each header holding the complement of its own sum |
| `ConnProperties.Udp4PktHeaders` | vendor/github.com/u-root/dhcp4/dhcp4client/conn_linux.go:169-178 | the first 20 bytes are the encoded IPv4 header and the next 8 the encoded UDP header |
| `ConnProperties.Udp4PktFields` | vendor/github.com/u-root/dhcp4/dhcp4client/conn_linux.go:161-178 | version 4, IHL 20 bytes, total length uint16(28 + len), TTL 30, protocol 17, the source and destination addresses, the source and destination ports as uint16, and UDP length uint16(8 + len) |
| `ConnProperties.Udp4PktLengths` | vendor/github.com/u-root/dhcp4/dhcp4client/conn_linux.go:163-177 | when len(payload) <= 65507, total length is the frame length and UDP length is 8 + len(payload) |
| `ConnProperties.Udp4PktIPv4Checksum` | vendor/github.com/u-root/dhcp4/dhcp4client/conn_linux.go:171 | the IPv4 header of the frame passes the receiver's RFC 1071 test |
| `ConnProperties.Udp4PktUDPChecksum` | vendor/github.com/u-root/dhcp4/dhcp4client/conn_linux.go:180-182 | the UDP datagram passes the receiver's RFC 768 test, with the pseudo-header taken from the frame's own IPv4 header |
| `ConnProperties.ReceivedAddr` | vendor/github.com/u-root/dhcp4/dhcp4client/conn_linux.go:127-130 | the address decoded from a frame built for `dest` is `dest` itself when its IP is set and its port fits in 16 bits |
| `ConnProperties.ParseUDPFrame` | vendor/github.com/u-root/dhcp4/dhcp4client/conn_linux.go:119-130 | a frame with a 20-byte header and protocol 17 decodes to its IPv4 destination, the UDP destination port after the header, and the bytes after the UDP header |
| `ConnProperties.ParsePadded` | vendor/github.com/u-root/dhcp4/dhcp4client/conn_linux.go:119-134 | bytes appended to a UDP frame with a 20-byte header decode as more payload to the same address, since neither length field is read |
| `ConnProperties.Udp4PktParses` | vendor/github.com/u-root/dhcp4/dhcp4client/conn_linux.go:119-134 | a frame built by `udp4pkt` is decodable and decodes to its destination address and exactly its payload |
| `ConnProperties.PaddingIsPayload` | vendor/github.com/u-root/dhcp4/dhcp4client/conn_linux.go:119-134 | bytes behind a `udp4pkt` frame decode as part of its payload, since neither length field is read |
| `ConnProperties.AcceptLayout` | vendor/github.com/u-root/dhcp4/dhcp4client/conn_linux.go:119-134 | a frame is returned iff its protocol byte is 17 and its destination (bytes 16-19, port after the IHL·4-byte header) passes the filter; the payload starts at IHL·4 + 8, and the first len(b) payload bytes are the same whether or not the read buffer truncated the frame |
| `ConnProperties.ScanDelivers` | vendor/github.com/u-root/dhcp4/dhcp4client/conn_linux.go:109-134 | a matching UDP frame at the head of the queue that fits the read buffer is returned after consuming only it, whatever follows |
| `ConnProperties.RoundTrip` | vendor/github.com/u-root/dhcp4/dhcp4client/conn_linux.go:154-186 | decoding a `udp4pkt` frame with a buffer at least as long as the payload and a filter its destination passes returns exactly the payload and destination, after consuming only that frame |
| `ConnProperties.ScanFirst` | vendor/github.com/u-root/dhcp4/dhcp4client/conn_linux.go:109-135 | every outcome before the first read error or accepted frame is skipped without error; that outcome is consumed and returned |
| `ConnProperties.ScanExhausted` | vendor/github.com/u-root/dhcp4/dhcp4client/conn_linux.go:109-135 | when every queued frame is skipped, the queue is drained and the call fails as on a closed socket |
| `ConnProperties.DiscardThenDeliver` | vendor/github.com/u-root/dhcp4/dhcp4client/conn_linux.go:122-134 | a non-UDP frame followed by a matching UDP frame: the first is dropped and the second returned in the same call |
| `ConnProperties.UdpMatchExamples` | vendor/github.com/u-root/dhcp4/dhcp4client/conn_linux.go:91-99 | wildcard IP: same port matches, other port does not; exact IP: same IP matches, other IP does not |

## Left out

- `NewIPv4UDPConn` and `NewPacketUDPConn`: socket creation, socket options, device binding and interface lookup are operating-system calls with no protocol logic.
- `Close`, `LocalAddr`, deadlines and the other `net.PacketConn` methods the connection inherits from the raw socket: they pass straight through to the transport.
- Blocking reads, cancellation by closing the socket from another goroutine, and concurrent readers and writers: the transport is a finite queue, so a read either gets the next outcome or finds the queue empty.
- The unbounded retry of `ReadFrom`: the model loops over the finite queue and fails with `Closed` when it runs out; starvation by endless unrelated traffic is not modelled.
- Conn.UDPPacketConn.ReadFrom: requires every queued frame to be decodable (`WellFormed`: a header length of at least 10 bytes that the frame holds, and for UDP frames a full 20-byte IPv4 header followed by 8 UDP bytes). On shorter frames the source indexes past the end of a slice or depends on the unshown `buffer.Consume`, so their behaviour is not modelled.
- Conn.UDPPacketConn.WriteTo: requires a non-nil bound address when given a UDP address; the source then dereferences it in `udp4pkt` and would panic.
- The header library's internals and `internal/buffer`: the IPv4 and UDP layouts follow RFC 791 and RFC 768, and the checksum is the RFC 1071 one's complement sum by definition. The library's 32-bit accumulator, which could wrap on buffers longer than about 128 KiB, is not modelled.
- `net.IP` values of 16 bytes, IPv4-mapped IPv6 equality and non-IPv4 IPs: IPs are four octets or nil.
- The TOS, identification, flags and fragment offset fields: `udp4pkt` leaves them zero, and the model writes zeros without naming them.
- RawTransport.RawConn.WriteTo: a write either always fails with one configured error or always succeeds; per-call failure patterns of a real socket are not modelled.
