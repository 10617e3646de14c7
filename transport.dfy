/** The raw link-layer packet connection the UDP connection is layered on. Its
    socket is replaced by a finite queue of read outcomes and a log of sent frames. */
module RawTransport {
  import opened Wrappers
  import opened InternetChecksum

  /** Errors a packet connection can return. */
  datatype Error =
    | Closed                  // the connection is closed; every further read fails
    | IoError(reason: string) // a failure reported by the socket, passed on verbatim
    | MustSupplyUdpAddr       // WriteTo was given an address that is not a UDP address

  /** What one read on the raw socket yields: a frame, or an error. */
  datatype Incoming = Frame(bytes: seq<byte>) | Failure(err: Error)

  /** A frame handed to the socket together with its link-layer destination. */
  datatype Outgoing = Outgoing(frame: seq<byte>, hardwareAddr: seq<byte>)

  /** The outcome of one read into a buffer of `size` bytes: a datagram socket hands
      over at most `size` bytes of the frame and drops the rest. */
  function Receive(item: Incoming, size: nat): (r: Result<seq<byte>, Error>)
    ensures item.Frame? ==> r.Ok? && |r.value| <= size && r.value <= item.bytes
    ensures item.Frame? && |item.bytes| <= size ==> r == Ok(item.bytes)
    ensures item.Failure? ==> r == Err(item.err)
  {
    match item
    case Frame(f) => Ok(if |f| <= size then f else f[..size])
    case Failure(e) => Err(e)
  }

  class RawConn {
    /** The outcomes the remaining reads will produce, in order. */
    var inbox: seq<Incoming>
    /** Every frame written so far, oldest first. */
    var sent: seq<Outgoing>
    /** When present, every write fails with this error. */
    var writeError: Option<Error>

    constructor (inbox: seq<Incoming>, writeError: Option<Error>)
      ensures this.inbox == inbox && this.writeError == writeError && sent == []
    {
      this.inbox := inbox;
      this.writeError := writeError;
      sent := [];
    }

    /** Reads one frame into a buffer of `size` bytes. Once the queue is exhausted the
        connection behaves as closed. */
    method ReadFrom(size: nat) returns (r: Result<seq<byte>, Error>)
      modifies this
      ensures old(inbox) == [] ==> r == Err(Closed) && inbox == []
      ensures old(inbox) != [] ==> r == Receive(old(inbox)[0], size) && inbox == old(inbox)[1..]
      ensures sent == old(sent) && writeError == old(writeError)
    {
      if inbox == [] {
        r := Err(Closed);
      } else {
        r := Receive(inbox[0], size);
        inbox := inbox[1..];
      }
    }

    /** Sends `frame` to the link-layer address `hardwareAddr`; on success the count
        is the number of frame bytes written. */
    method WriteTo(frame: seq<byte>, hardwareAddr: seq<byte>) returns (r: Result<nat, Error>)
      modifies this
      ensures writeError == old(writeError) && inbox == old(inbox)
      ensures old(writeError).Some? ==> r == Err(old(writeError).value) && sent == old(sent)
      ensures old(writeError).None? ==> r == Ok(|frame|) && sent == old(sent) + [Outgoing(frame, hardwareAddr)]
    {
      if writeError.Some? {
        r := Err(writeError.value);
      } else {
        sent := sent + [Outgoing(frame, hardwareAddr)];
        r := Ok(|frame|);
      }
    }
  }
}
