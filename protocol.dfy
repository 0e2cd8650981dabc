/** The wire protocol shared by client and server: the packet kinds and the size ceiling. */
module Protocol {

  /** Size of the server's receive buffer; an encoded packet must be strictly smaller to be sent. */
  const MAX_PACKET_SIZE: nat := 2048

  datatype Option<T> = None | Some(value: T)

  /**
   * An IPv4 UDP endpoint: the server binds `0.0.0.0`, so every peer is IPv4. The
   * server only ever compares endpoints, and two are equal exactly when address
   * and port are.
   */
  datatype SocketAddr = SocketAddrV4(ip: bv32, port: bv16)

  /** The `Packets` enum: every datagram carries exactly one of these. */
  datatype Packet =
    | LoginReq(name: string)
    | ChatReq(contents: string)
    | ChatNotify(name: string, contents: string)
    | Ping

  /** Whether packet `p`, whose JSON text is `jsonLen(p)` bytes long, may be transmitted. */
  predicate Fits(jsonLen: Packet -> nat, p: Packet)
  {
    jsonLen(p) < MAX_PACKET_SIZE
  }
}
