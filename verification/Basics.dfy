/** Shared small types. */
module Basics {
  datatype Option<+T> = None | Some(value: T)

  /** The metadata that travels beside a packet, field by field. */
  datatype Metadata = Metadata(
    index: nat, ipSrc: nat, ipDst: nat, udpSport: nat, udpDport: nat, opcode: nat, pktlen: nat,
    dmaLength: nat, rKey: nat, se: nat, psn: nat, msn: nat, isRdma: bool)

  /** One transfer of a packet stream: the bits kept, the size sideband and the last flag. */
  datatype Beat = Beat(data: seq<bool>, size: nat, last: bool)
}
