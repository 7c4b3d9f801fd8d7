/** Client addresses as runtime/kynx.h stores them. */
module KynxTypes {
  /** family 0, 4 or 6; a v6 address is 16 bytes. */
  datatype IP = NoIp | V4(bits: nat) | V6(bytes: seq<nat>)
}
