/** The CAN frame as the detection core reads it. */
module CanFrame {

  /** One payload byte. */
  type Byte = b: int | 0 <= b < 256

  /** A received frame: arrival time in seconds, arbitration identifier,
      declared data length and payload bytes. The payload is not tied to
      `dlc` and may hold more than eight bytes (CAN FD). */
  datatype Frame = Frame(timestamp: real, id: nat, dlc: nat, data: seq<Byte>)
}
