/** The handful of Go values the recon engine works on, as plain Dafny types. */
module GoTypes {

  /** One octet of a hardware address, of an SSID or of a Go string. */
  type byte = b: int | 0 <= b < 0x100

  /** Go's `uint16`, the width of the radiotap channel frequency and of the 802.11 sequence number. */
  type uint16 = x: int | 0 <= x < 0x1_0000

  /** `net.HardwareAddr`: a byte slice of any length; a nil slice is the empty sequence. */
  type Mac = seq<byte>

  /** A Go `string` is a sequence of bytes; `string(b)` of a byte slice keeps the bytes as they are. */
  type GoString = seq<byte>

  datatype Option<T> = None | Some(value: T)

  /** The errors the engine reports at its command boundary. */
  datatype Error =
    | AlreadyStarted          // session.ErrAlreadyStarted
    | NotInitialized          // "Targets are not yet initialized"
    | BaseStationNotSet       // "Base station is not set."
    | InvalidAddress          // the error net.ParseMAC returns
    | DeviceFailure(code: int) // an error from the capture facility, passed on as it is

  /** A Go `error` result: nil (Pass) or an error. */
  datatype Outcome = Pass | Fail(error: Error)

  /** The all-ones broadcast address, what `net.ParseMAC("ff:ff:ff:ff:ff:ff")` yields. */
  const BroadcastMac: Mac := [0xff, 0xff, 0xff, 0xff, 0xff, 0xff]
}
