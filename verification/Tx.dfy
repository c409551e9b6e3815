/** The pure sender operators: what one slice's header is and where the next slice starts. */
module Tx {
  import opened Words
  import opened Common

  datatype TxSlice = TxSlice(header: HeaderMeta, next: Coordinate)

  function Advance(config: Config, current: Coordinate): Coordinate {
    current.(offset := U16(current.offset + MaxPayload(config)))
  }

  function MakeHeader(config: Config, current: Coordinate, payloadSize: u16, eop: bool): HeaderMeta
    requires MaxPayload(config) > 0
  {
    HeaderMeta(
      current.packageId,
      OffsetToSliceIdx(current.offset, MaxPayload(config)),
      current.senderId % 8,
      if eop then 1 else 0,
      payloadSize)
  }

  function Prepare(config: Config, current: Coordinate, payloadSize: u16, isFinal: bool): TxSlice
    requires MaxPayload(config) > 0
  {
    TxSlice(MakeHeader(config, current, payloadSize, isFinal), Advance(config, current))
  }
}
