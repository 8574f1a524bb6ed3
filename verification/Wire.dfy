/** Datagrams of the URL rewriting service and the requests they carry. */
module Wire {

  newtype byte = x: int | 0 <= x < 256

  const NEWLINE: byte := 10
  /** seq, rcode and pktlen of two bytes each, urlsum of four. */
  const HEADER_SIZE := 10
  const MAX_PACKET_SIZE := 65535
  /** What is left of a packet buffer after the header. */
  const BODY_SIZE := MAX_PACKET_SIZE - HEADER_SIZE

  datatype Header = Header(seqNo: nat, rcode: nat, urlsum: nat)

  const RCODE_ERROR := 1

  /** A well-formed request. `id` numbers the datagrams in the order they were accepted; it names a
      request in statements and is never looked at. */
  datatype Request = Request(id: nat, from: nat, hdr: Header, url: seq<byte>)

  /** The packet length a request was sent with. */
  function PacketLength(r: Request): nat {
    HEADER_SIZE + |r.url|
  }

  /** A request fits the receive buffer, with a byte to spare for a newline. */
  predicate Sendable(r: Request) {
    PacketLength(r) <= MAX_PACKET_SIZE - 1
  }

  /** A datagram as the service sends it. */
  datatype Packet = Packet(to: nat, hdr: Header, pktlen: nat, payload: seq<byte>)

  /** What arrives on the socket: an error or a runt, with the sender and the header that it leaves in a
      cleared buffer, or a header, its own idea of the packet length, and the bytes after the header. */
  datatype Arrival =
    | Runt(from: nat, hdr: Header)
    | Datagram(from: nat, hdr: Header, pktlen: nat, payload: seq<byte>)

  /** A datagram is accepted when it is as long as it says, header included. */
  predicate Accepted(a: Arrival) {
    a.Datagram? && a.pktlen == HEADER_SIZE + |a.payload|
  }

  /** The request a datagram makes, under its number. */
  function RequestOf(a: Arrival, n: nat): Request
    requires Accepted(a)
  {
    Request(n, a.from, a.hdr, a.payload)
  }

  /** The receive buffer holds all but one byte of the largest packet. */
  predicate Receivable(a: Arrival) {
    a.Datagram? ==> HEADER_SIZE + |a.payload| <= MAX_PACKET_SIZE - 1
  }

  /** A packet that is a header and nothing else. */
  function BarePacket(to: nat, hdr: Header): Packet {
    Packet(to, hdr, HEADER_SIZE, [])
  }

  /** The reply to a datagram there is no memory for. */
  function Refusal(req: Request): Packet {
    BarePacket(req.from, req.hdr.(rcode := RCODE_ERROR))
  }

  /** The reply that carries a line of output, without its newline. */
  function Rewritten(req: Request, output: seq<byte>): Packet
    requires output != []
  {
    Packet(req.from, req.hdr, HEADER_SIZE + |output| - 1, output[..|output| - 1])
  }
}
