/** Integer widths, byte order and TCP segments, as the C structs hold them. */
module Wire {
  const TWO16: int := 0x1_0000
  const TWO32: int := 0x1_0000_0000

  type u8 = x: int | 0 <= x < 0x100
  type u16 = x: int | 0 <= x < 0x1_0000
  type u32 = x: int | 0 <= x < 0x1_0000_0000

  /** Unsigned 16-bit and 32-bit arithmetic: results are reduced on assignment. */
  function U16(x: int): u16 { x % TWO16 }

  function U32(x: int): u32 { x % TWO32 }

  /** `ntohs` and `htons` on a little-endian host. */
  function Swap16(x: u16): u16 { x % 0x100 * 0x100 + x / 0x100 }

  /** A payload whose length fits the 16-bit length computed for arriving segments. */
  type Payload = s: seq<u8> | |s| < 0x1_0000

  datatype Flags = Flags(fin: bool, syn: bool, rst: bool, psh: bool, ack: bool)

  const NONE := Flags(false, false, false, false, false)
  const ACK := NONE.(ack := true)
  const SYN := NONE.(syn := true)
  const SYN_ACK := NONE.(syn := true, ack := true)
  const FIN_ACK := NONE.(fin := true, ack := true)
  const PSH_ACK := NONE.(psh := true, ack := true)
  const RST := NONE.(rst := true)

  /** A segment with its numbers in host order. */
  datatype Segment = Segment(seqNum: u32, ackNum: u32, flags: Flags, window: u16, payload: Payload)
}
