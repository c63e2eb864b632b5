/**
 * 802.11 frames as records of the fields the engine reads or writes. Frame
 * decoding and serialisation belong to the packet library and are not modelled:
 * a captured frame is the set of layers the library found in it, and a built
 * deauthentication frame is the record of its header and body fields.
 */
module Dot11 {
  import opened GoTypes

  /** `Dot11Type.MainType()`: the two-bit frame type. */
  datatype Dot11MainType = Mgmt | Ctrl | Data | Reserved

  /** The radiotap header; only the channel frequency (MHz) is read. */
  datatype RadioTap = RadioTap(channelFrequency: uint16)

  /** Element ID of the SSID information element. */
  const SsidElementId: byte := 0

  /** The first 802.11 information element of the frame. */
  datatype InformationElement = InformationElement(id: byte, info: seq<byte>)

  /** The 802.11 MAC header: frame type, the ToDS/FromDS flags and the three address fields. */
  datatype Dot11Header = Dot11Header(
    mainType: Dot11MainType,
    toDS: bool,
    fromDS: bool,
    address1: Mac,
    address2: Mac,
    address3: Mac)

  /** A captured frame: each layer is present or not, as `packet.Layer(...)` reports. */
  datatype Packet = Packet(
    radioTap: Option<RadioTap>,
    infoElement: Option<InformationElement>,
    dot11: Option<Dot11Header>)

  /** The full frame type written into a built frame. */
  datatype Dot11Type = MgmtDeauthentication | OtherType(code: byte)

  /** The reason code carried by a deauthentication body. */
  datatype Dot11Reason = Class2FromNonAuth | OtherReason(code: uint16)

  /** A built deauthentication frame: radiotap, 802.11 header and deauthentication body. */
  datatype DeauthFrame = DeauthFrame(
    address1: Mac,
    address2: Mac,
    address3: Mac,
    frameType: Dot11Type,
    reason: Dot11Reason,
    sequenceNumber: uint16)

  /** `buildDeauthPkt`: the frame with the given addresses, type, reason and sequence number. */
  function BuildDeauthPkt(address1: Mac, address2: Mac, address3: Mac, frameType: Dot11Type,
                          reason: Dot11Reason, sequenceNumber: uint16): (f: DeauthFrame)
    ensures [f.address1, f.address2, f.address3] == [address1, address2, address3]
    ensures f.frameType == frameType && f.reason == reason && f.sequenceNumber == sequenceNumber
  {
    DeauthFrame(address1, address2, address3, frameType, reason, sequenceNumber)
  }
}
