/**
 * Which captured frames the recon engine records, and what it records for
 * them. In base-station mode (no base-station filter) a frame counts when it
 * is addressed to the broadcast address and carries a non-empty SSID element;
 * in client mode (a filter `bs` is set) a frame counts when it is a data frame
 * sent by a station to the distribution system of `bs`. A sequence of
 * captures is folded into the directory one frame at a time.
 */
module Classifier {
  import opened GoTypes
  import opened Dot11
  import opened Channel
  import opened Directory

  /** What one accepted frame adds to the directory (the arguments of `AddIfNew`). */
  datatype Detection = Detection(ssid: GoString, address: Mac, isBaseStation: bool, channel: int)

  /** A captured frame and the time the directory sees it. */
  datatype Capture = Capture(packet: Packet, now: int)

  /**
   * `BSScan`'s tests: a radiotap header, a first information element that is
   * the SSID element, an 802.11 header whose receiver address is the
   * broadcast address, and a non-empty SSID. The base station is the BSSID
   * field (address 3).
   */
  function BeaconDetection(p: Packet, broadcast: Mac): (d: Option<Detection>)
    ensures d.Some? <==>
      && p.radioTap.Some? && p.infoElement.Some? && p.dot11.Some?
      && p.infoElement.value.id == SsidElementId
      && p.dot11.value.address1 == broadcast
      && |p.infoElement.value.info| > 0
    ensures d.Some? ==>
      && d.value.isBaseStation
      && d.value.ssid == p.infoElement.value.info
      && d.value.address == p.dot11.value.address3
      && d.value.channel == WlanMhzToChannel(p.radioTap.value.channelFrequency)
  {
    match p.radioTap
    case None => None
    case Some(radioTap) =>
      match p.infoElement
      case None => None
      case Some(info) =>
        if info.id != SsidElementId then None
        else
          match p.dot11
          case None => None
          case Some(dot11) =>
            if dot11.address1 == broadcast && |info.info| > 0 then
              Some(Detection(info.info, dot11.address3, true, WlanMhzToChannel(radioTap.channelFrequency)))
            else None
  }

  /**
   * `ClientScan`'s tests: a radiotap header and an 802.11 data frame going to
   * the distribution system (ToDS set, FromDS clear) whose BSSID (address 1)
   * is `bs`. The client is the transmitter (address 2); it is recorded with
   * an empty SSID.
   */
  function ClientDetection(bs: Mac, p: Packet): (d: Option<Detection>)
    ensures d.Some? <==>
      && p.radioTap.Some? && p.dot11.Some?
      && p.dot11.value.mainType == Data
      && p.dot11.value.toDS && !p.dot11.value.fromDS
      && p.dot11.value.address1 == bs
    ensures d.Some? ==>
      && !d.value.isBaseStation
      && d.value.ssid == []
      && d.value.address == p.dot11.value.address2
      && d.value.channel == WlanMhzToChannel(p.radioTap.value.channelFrequency)
  {
    match p.radioTap
    case None => None
    case Some(radioTap) =>
      match p.dot11
      case None => None
      case Some(dot11) =>
        if dot11.mainType != Data then None
        else if dot11.toDS && !dot11.fromDS && dot11.address1 == bs then
          Some(Detection([], dot11.address2, false, WlanMhzToChannel(radioTap.channelFrequency)))
        else None
  }

  /**
   * The capture loop's choice: client mode while a base-station filter is set.
   * A detection is a base station, with a non-empty SSID, exactly when no
   * filter is set.
   */
  function Classify(bs: Mac, broadcast: Mac, p: Packet): (d: Option<Detection>)
    ensures d.Some? ==> (d.value.isBaseStation <==> |bs| == 0)
    ensures d.Some? ==> (d.value.ssid == [] <==> |bs| > 0)
  {
    if |bs| > 0 then ClientDetection(bs, p) else BeaconDetection(p, broadcast)
  }

  /** The directory after the detection (if any) of one frame seen at time `now`. */
  function Record(m: Entries, d: Option<Detection>, now: int): Entries
  {
    match d
    case None => m
    case Some(det) => AddEntry(m, det.ssid, det.address, det.channel, now)
  }

  /** The directory after the capture loop has handled `caps` in order. */
  function ScanAll(m: Entries, bs: Mac, broadcast: Mac, caps: seq<Capture>): Entries
    decreases |caps|
  {
    if caps == [] then m
    else
      var c := caps[|caps| - 1];
      Record(ScanAll(m, bs, broadcast, caps[..|caps| - 1]), Classify(bs, broadcast, c.packet), c.now)
  }

  /** The addresses that frames of `caps` contribute. */
  function Accepted(bs: Mac, broadcast: Mac, caps: seq<Capture>): set<Mac>
    decreases |caps|
  {
    if caps == [] then {}
    else
      var c := caps[|caps| - 1];
      Accepted(bs, broadcast, caps[..|caps| - 1]) +
        match Classify(bs, broadcast, c.packet)
        case None => {}
        case Some(d) => {d.address}
  }

  /**
   * The directory holds base stations only (every SSID non-empty) while no
   * filter is set, and clients only (every SSID empty) while one is.
   */
  ghost predicate Scoped(m: Entries, bs: Mac)
  {
    if |bs| > 0 then forall k :: k in m ==> m[k].essid == []
    else forall k :: k in m ==> |m[k].essid| > 0
  }

  /** Handling one frame keeps the directory in scope. */
  lemma RecordKeepsScope(m: Entries, bs: Mac, broadcast: Mac, p: Packet, now: int)
    requires Scoped(m, bs)
    ensures Scoped(Record(m, Classify(bs, broadcast, p), now), bs)
  {
    var d := Classify(bs, broadcast, p);
    if d.Some? {
      var r := Record(m, d, now);
      forall k | k in r
        ensures if |bs| > 0 then r[k].essid == [] else |r[k].essid| > 0
      {
        if k == d.value.address {
          AddEntryKeepsIdentity(m, d.value.ssid, d.value.address, d.value.channel, now);
        }
      }
    }
  }

  /** The capture loop keeps the directory in scope, however many frames it handles. */
  lemma {:induction false} ScanAllKeepsScope(m: Entries, bs: Mac, broadcast: Mac, caps: seq<Capture>)
    requires Scoped(m, bs)
    ensures Scoped(ScanAll(m, bs, broadcast, caps), bs)
    decreases |caps|
  {
    if caps != [] {
      var c := caps[|caps| - 1];
      ScanAllKeepsScope(m, bs, broadcast, caps[..|caps| - 1]);
      RecordKeepsScope(ScanAll(m, bs, broadcast, caps[..|caps| - 1]), bs, broadcast, c.packet, c.now);
    }
  }

  /**
   * The capture loop adds exactly the accepted addresses: no entry is ever
   * removed, and no address appears that no accepted frame carried.
   */
  lemma {:induction false} ScanAllKeys(m: Entries, bs: Mac, broadcast: Mac, caps: seq<Capture>)
    ensures ScanAll(m, bs, broadcast, caps).Keys == m.Keys + Accepted(bs, broadcast, caps)
    decreases |caps|
  {
    if caps != [] {
      ScanAllKeys(m, bs, broadcast, caps[..|caps| - 1]);
    }
  }

  /** The capture loop keeps every entry stored under its own address. */
  lemma {:induction false} ScanAllKeyed(m: Entries, bs: Mac, broadcast: Mac, caps: seq<Capture>)
    requires Keyed(m)
    ensures Keyed(ScanAll(m, bs, broadcast, caps))
    decreases |caps|
  {
    if caps != [] {
      ScanAllKeyed(m, bs, broadcast, caps[..|caps| - 1]);
    }
  }

  /**
   * In client mode an address is accepted only from a to-DS data frame whose
   * BSSID is the filter; it is that frame's transmitter address.
   */
  lemma {:induction false} AcceptedClients(bs: Mac, broadcast: Mac, caps: seq<Capture>, a: Mac)
    requires |bs| > 0 && a in Accepted(bs, broadcast, caps)
    ensures exists i :: (0 <= i < |caps| && caps[i].packet.dot11.Some? &&
                         ClientFrom(caps[i].packet.dot11.value, bs, a))
    decreases |caps|
  {
    var c := caps[|caps| - 1];
    var init := caps[..|caps| - 1];
    if a in Accepted(bs, broadcast, init) {
      AcceptedClients(bs, broadcast, init, a);
      var i :| 0 <= i < |init| && init[i].packet.dot11.Some? && ClientFrom(init[i].packet.dot11.value, bs, a);
      assert caps[i] == init[i];
    } else {
      assert ClientFrom(caps[|caps| - 1].packet.dot11.value, bs, a);
    }
  }

  /** `h` is a data frame from station `a` to the distribution system of `bs`. */
  predicate ClientFrom(h: Dot11Header, bs: Mac, a: Mac)
  {
    h.mainType == Data && h.toDS && !h.fromDS && h.address1 == bs && h.address2 == a
  }
}
