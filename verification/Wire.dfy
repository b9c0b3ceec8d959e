/**
  What travels between the two programs: datagrams on the UDP channel and
  requests on the TCP back-channel.
*/
module Wire {

  type Byte = x: int | 0 <= x < 256

  datatype BlockType = Original | Terminate | Retransmission

  /** `payload` is the fixed-size data area behind the six header bytes. */
  datatype Datagram = Datagram(block: nat, kind: BlockType, payload: seq<Byte>)

  datatype Request =
    | Retransmit(block: nat)
    | Restart(block: nat)
    | Stop
    | ErrorRate(rate: nat)

  function Min(a: int, b: int): int {
    if a < b then a else b
  }

  function Max(a: int, b: int): int {
    if a > b then a else b
  }
}
