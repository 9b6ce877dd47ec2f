/** The frame record shared by the parser and the router (include/ipmb/protocol/frame_reader.h). */
module Frames {
  import opened Bytes

  /** `payloadLen` is a size_t of its own: only the parser ties it to the payload. */
  datatype Frame = Frame(
    frameType: uint16,
    frameFlags: uint16,
    sourceAddr: uint32,
    destAddr: uint32,
    priority: uint16,
    ttl: uint16,
    payload: seq<byte>,
    payloadLen: uint64,
    crc: uint32)
}
