/** Machine integers, status codes and the constants shared by both ends of the protocol. */
module Types {
  type byte = x: int | 0 <= x < 0x100
  type uint16 = x: int | 0 <= x < 0x1_0000
  type uint32 = x: int | 0 <= x < 0x1_0000_0000

  const WORD32: int := 0x1_0000_0000
  const WORD64: int := 0x1_0000_0000_0000_0000

  /** Bit fields of the first header byte. */
  type bits2 = x: int | 0 <= x < 4
  type bits5 = x: int | 0 <= x < 32

  const PTYPE_DATA: bits2 := 1
  const PTYPE_ACK: bits2 := 2
  const PTYPE_NACK: bits2 := 3

  const HEADER_SIZE: int := 12
  const MAX_PAYLOAD_SIZE: int := 512
  const MAX_PACKET_SIZE: int := 528
  const MAX_WINDOW_SIZE: int := 31
  const MAX_SEQNUM: int := 255

  /** Retransmission timer, in microseconds. */
  const TIMER: int := 4500000

  datatype Option<+T> = None | Some(value: T)

  datatype Result<+T> = Ok(value: T) | Err(code: Status)

  datatype Status =
    | PktOk
    | EType
    | ETr
    | ELength
    | ECrc
    | EWindow
    | ESeqnum
    | ENoMem
    | ENoHeader
    | EUnconsistent
}
