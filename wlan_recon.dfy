/**
 * The `wlan.recon` engine: its state (directory, capture handle, the two
 * target filters and the broadcast address), the command handlers that change
 * it, the capture loop that feeds the directory, the deauthentication attack
 * and the report view.
 */
module WlanRecon {
  import opened GoTypes
  import opened Dot11
  import opened Channel
  import opened Directory
  import opened Classifier
  import opened Deauth
  import opened Sweep
  import opened Ordering
  import opened Sorters

  /** Number of most recent session events the report view shows. */
  const MaxShownEvents: nat := 20

  /** The events the report view shows: the last 20, or all of them when there are fewer. */
  function LastEvents<E>(events: seq<E>): (r: seq<E>)
    ensures |r| == if |events| > MaxShownEvents then MaxShownEvents else |events|
    ensures events == events[..|events| - |r|] + r
  {
    if |events| > MaxShownEvents then events[|events| - MaxShownEvents..] else events
  }

  /**
   * How configuring the capture device ends: a failure while preparing the
   * inactive handle (monitor mode, snap length, timeout), a failure of the
   * activation itself, or an active handle.
   */
  datatype Activation =
    | ConfigurationFailed(error: Error)
    | ActivationFailed(error: Error)
    | Activated(handle: InjectionHandle)

  class WDiscovery {
    /** The session framework's running flag. */
    var running: bool
    /** `Targets`: nil until the first `wlan.recon on`. */
    var targets: WlanTargets?
    /** `ClientTarget`: the client to attack; empty when none. */
    var clientTarget: Mac
    /** `BSTarget`: the base-station filter; empty when none. */
    var bsTarget: Mac
    /** `Handle`: the capture and injection handle; nil until an activation succeeds. */
    var handle: InjectionHandle?
    /** `BroadcastMac`: nil until configured. */
    var broadcastMac: Mac

    /**
     * Once the directory exists it is well formed and in scope of the filter
     * (base stations only without a filter, clients only with one), and the
     * broadcast address is set; a handle only exists once the directory does.
     */
    ghost predicate Valid()
      reads this, targets
    {
      && (targets != null ==>
            targets.Valid() && Scoped(targets.entries, bsTarget) && broadcastMac == BroadcastMac)
      && (handle != null ==> targets != null)
    }

    /** `NewWDiscovery`: stopped, no directory, no handle, no filters. */
    constructor ()
      ensures Valid()
      ensures !running && targets == null && handle == null
      ensures clientTarget == [] && bsTarget == [] && broadcastMac == []
    {
      running := false;
      targets := null;
      clientTarget := [];
      bsTarget := [];
      handle := null;
      broadcastMac := [];
    }

    /**
     * `wlan.recon set client MAC`. `parsed` is what `net.ParseMAC` returned for
     * the argument; the command pattern admits mixed separators, which the
     * parser rejects, and then the target becomes nil.
     */
    method SetClientTarget(parsed: Option<Mac>) returns (r: Outcome)
      requires Valid()
      modifies this`clientTarget
      ensures Valid()
      ensures clientTarget == (if parsed.Some? then parsed.value else [])
      ensures r == (if parsed.Some? then Pass else Fail(InvalidAddress))
    {
      match parsed
      case Some(mac) =>
        clientTarget := mac;
        r := Pass;
      case None =>
        clientTarget := [];
        r := Fail(InvalidAddress);
    }

    /** `wlan.recon clear client`. */
    method ClearClientTarget() returns (r: Outcome)
      requires Valid()
      modifies this`clientTarget
      ensures Valid()
      ensures clientTarget == [] && r == Pass
    {
      clientTarget := [];
      r := Pass;
    }

    /**
     * `wlan.recon set bs MAC`: empties the directory (when there is one) before
     * the parse result is applied, so a rejected address still clears it and
     * leaves no filter.
     */
    method SetBSTarget(parsed: Option<Mac>) returns (r: Outcome)
      requires Valid()
      modifies this`bsTarget, targets
      ensures Valid()
      ensures targets != null ==> targets.entries == map[]
      ensures bsTarget == (if parsed.Some? then parsed.value else [])
      ensures r == (if parsed.Some? then Pass else Fail(InvalidAddress))
    {
      if targets != null {
        targets.ClearAll();
      }
      match parsed
      case Some(mac) =>
        bsTarget := mac;
        r := Pass;
      case None =>
        bsTarget := [];
        r := Fail(InvalidAddress);
    }

    /** `wlan.recon clear bs`: empties the directory (when there is one) and drops the filter. */
    method ClearBSTarget() returns (r: Outcome)
      requires Valid()
      modifies this`bsTarget, targets
      ensures Valid()
      ensures targets != null ==> targets.entries == map[]
      ensures bsTarget == [] && r == Pass
    {
      if targets != null {
        targets.ClearAll();
      }
      bsTarget := [];
      r := Pass;
    }

    /** `BSScan`: records the base station a broadcast frame with an SSID announces. */
    method BSScan(p: Packet, now: int)
      requires targets != null && targets.Valid()
      modifies targets
      ensures targets.Valid()
      ensures targets.entries == Record(old(targets.entries), BeaconDetection(p, broadcastMac), now)
    {
      if p.radioTap.None? {
        return;
      }
      var radioTap := p.radioTap.value;
      if p.infoElement.None? {
        return;
      }
      var info := p.infoElement.value;
      if info.id != SsidElementId {
        return;
      }
      if p.dot11.None? {
        return;
      }
      var dot11 := p.dot11.value;
      var ssid := info.info;
      var bssid := dot11.address3;
      var dst := dot11.address1;
      if dst == broadcastMac && |ssid| > 0 {
        var channel := WlanMhzToChannel(radioTap.channelFrequency);
        targets.AddIfNew(ssid, bssid, true, channel, now);
      }
    }

    /** `ClientScan`: records the station sending a data frame to the base station `bs`. */
    method ClientScan(bs: Mac, p: Packet, now: int)
      requires targets != null && targets.Valid()
      modifies targets
      ensures targets.Valid()
      ensures targets.entries == Record(old(targets.entries), ClientDetection(bs, p), now)
    {
      if p.radioTap.None? {
        return;
      }
      var radioTap := p.radioTap.value;
      if p.dot11.None? {
        return;
      }
      var dot11 := p.dot11.value;
      if dot11.mainType != Data {
        return;
      }
      if dot11.toDS && !dot11.fromDS {
        var src := dot11.address2;
        var bssid := dot11.address1;
        if bssid == bs {
          var channel := WlanMhzToChannel(radioTap.channelFrequency);
          targets.AddIfNew([], src, false, channel, now);
        }
      }
    }

    /** One iteration of the capture loop: client mode while a filter is set. */
    method HandleFrame(c: Capture)
      requires Valid() && targets != null
      modifies targets
      ensures Valid()
      ensures targets.entries == Record(old(targets.entries), Classify(bsTarget, broadcastMac, c.packet), c.now)
    {
      RecordKeepsScope(targets.entries, bsTarget, broadcastMac, c.packet, c.now);
      if |bsTarget| > 0 {
        ClientScan(bsTarget, c.packet, c.now);
      } else {
        BSScan(c.packet, c.now);
      }
    }

    /**
     * The capture loop started by `Start`, over the frames `caps` the handle
     * delivers: it stops at the first frame it sees while not running, and
     * otherwise hands every frame to the scanner in order.
     */
    method CaptureLoop(caps: seq<Capture>) returns (handled: nat)
      requires Valid() && handle != null
      modifies targets
      ensures Valid()
      ensures handled == if running then |caps| else 0
      ensures targets.entries == ScanAll(old(targets.entries), bsTarget, broadcastMac, caps[..handled])
    {
      handled := 0;
      while handled < |caps|
        invariant Valid() && targets != null
        invariant handled <= |caps|
        invariant !running ==> handled == 0
        invariant targets.entries == ScanAll(old(targets.entries), bsTarget, broadcastMac, caps[..handled])
      {
        if !running {
          break;
        }
        HandleFrame(caps[handled]);
        assert caps[..handled + 1][..handled] == caps[..handled];
        handled := handled + 1;
      }
    }

    /**
     * `Configure`: a fresh empty directory and the broadcast address, then the
     * capture device. A failure before activation keeps whatever handle there
     * was; a failed activation leaves the handle nil.
     */
    method Configure(activation: Activation) returns (r: Outcome)
      modifies this`targets, this`broadcastMac, this`handle
      ensures Valid()
      ensures targets != null && fresh(targets) && targets.entries == map[]
      ensures broadcastMac == BroadcastMac
      ensures activation.ConfigurationFailed? ==> r == Fail(activation.error) && handle == old(handle)
      ensures activation.ActivationFailed? ==> r == Fail(activation.error) && handle == null
      ensures activation.Activated? ==> r == Pass && handle == activation.handle
    {
      targets := new WlanTargets();
      broadcastMac := BroadcastMac;
      match activation
      case ConfigurationFailed(e) =>
        r := Fail(e);
      case ActivationFailed(e) =>
        handle := null;
        r := Fail(e);
      case Activated(h) =>
        handle := h;
        r := Pass;
    }

    /**
     * `wlan.recon on`: refused while running; otherwise configures, and on
     * success marks the engine running (the capture loop is `CaptureLoop`).
     */
    method Start(activation: Activation) returns (r: Outcome)
      requires Valid()
      modifies this`running, this`targets, this`broadcastMac, this`handle
      ensures Valid()
      ensures old(running) ==> r == Fail(AlreadyStarted) && unchanged(this)
      ensures !old(running) ==> targets != null && fresh(targets) && targets.entries == map[]
      ensures !old(running) ==> (r == Pass <==> activation.Activated?) && (running <==> r == Pass)
      ensures !old(running) && activation.Activated? ==> handle == activation.handle
      ensures !old(running) && activation.ActivationFailed? ==> r == Fail(activation.error) && handle == null
      ensures !old(running) && activation.ConfigurationFailed? ==>
        r == Fail(activation.error) && handle == old(handle)
    {
      if running {
        return Fail(AlreadyStarted);
      }
      r := Configure(activation);
      if r.Fail? {
        return;
      }
      running := true;
    }

    /** `wlan.recon off`: clears the running flag; the capture loop ends at its next frame. */
    method Stop() returns (r: Outcome)
      requires Valid()
      modifies this`running
      ensures Valid()
      ensures !running && r == Pass
    {
      running := false;
      r := Pass;
    }

    /**
     * `SendDeauthPacket`: up to 64 rounds of two frames, stopping silently
     * right after the first write that fails.
     */
    method SendDeauthPacket(ap: Mac, client: Mac)
      requires handle != null
      modifies handle
      ensures handle.written == old(handle.written) + AttackTrace(ap, client, handle.failing, |old(handle.written)|)
    {
      var base := |handle.written|;
      var s: nat := 0;
      while s < Rounds
        invariant s <= Rounds
        invariant handle.written == old(handle.written) + DeauthFrames(ap, client)[..2 * s]
        invariant NoFailureIn(handle.failing, base, base + 2 * s)
      {
        RoundFrames(ap, client, s);
        assert |handle.written| == base + 2 * s;
        var failed := handle.WritePacketData(
          BuildDeauthPkt(ap, client, ap, MgmtDeauthentication, Class2FromNonAuth, s));
        if failed {
          AttackTraceStopsAt(ap, client, handle.failing, base, 2 * s);
          return;
        }
        assert handle.written == old(handle.written) + DeauthFrames(ap, client)[..2 * s + 1];
        assert NoFailureIn(handle.failing, base, base + 2 * s + 1);
        failed := handle.WritePacketData(
          BuildDeauthPkt(client, ap, ap, MgmtDeauthentication, Class2FromNonAuth, s));
        if failed {
          AttackTraceStopsAt(ap, client, handle.failing, base, 2 * s + 1);
          return;
        }
        s := s + 1;
      }
      AttackTraceAllSucceed(ap, client, handle.failing, base);
    }

    /** One step of the sweep: the attack on `client` follows the attacks already made. */
    method AttackNext(bs: Mac, client: Mac, ghost done: seq<Mac>, ghost start: seq<DeauthFrame>)
      requires handle != null
      requires handle.written == start + SweepTrace(bs, done, handle.failing, |start|)
      modifies handle
      ensures handle.written == start + SweepTrace(bs, done + [client], handle.failing, |start|)
    {
      ghost var prev := SweepTrace(bs, done, handle.failing, |start|);
      ghost var mid := handle.written;
      SendDeauthPacket(bs, client);
      ghost var attack := AttackTrace(bs, client, handle.failing, |mid|);
      SweepTraceStep(bs, done, client, handle.failing, |start|);
      assert mid + attack == start + (prev + attack);
    }

    /**
     * The sweep branch of `SendDeauth`: one attack by `bs` on every directory
     * entry in turn, in the map's iteration order `order`.
     */
    method SweepDeauth(bs: Mac) returns (ghost order: seq<Mac>)
      requires handle != null && targets != null && targets.Valid()
      modifies handle
      ensures |order| == |targets.entries|
      ensures forall k :: k in order <==> k in targets.entries
      ensures forall i, j :: 0 <= i < j < |order| ==> order[i] != order[j]
      ensures handle.written == old(handle.written) + SweepTrace(bs, order, handle.failing, |old(handle.written)|)
    {
      order := [];
      var base := |handle.written|;
      var left := targets.entries.Keys;
      while left != {}
        invariant left <= targets.entries.Keys
        invariant |order| + |left| == |targets.entries|
        invariant forall k :: k in order ==> k in targets.entries && k !in left
        invariant forall k :: k in targets.entries ==> k in order || k in left
        invariant forall i, j :: 0 <= i < j < |order| ==> order[i] != order[j]
        invariant handle.written == old(handle.written) + SweepTrace(bs, order, handle.failing, base)
        decreases |left|
      {
        var k :| k in left;
        AttackNext(bs, targets.entries[k].hw, order, old(handle.written));
        order := order + [k];
        left := left - {k};
      }
    }

    /** The directory's size as `SendDeauth` sees it: `None` while there is no directory. */
    function DirectorySize(): Option<nat>
      reads this, targets
    {
      if targets == null then None else Some(|targets.entries|)
    }

    /**
     * `SendDeauth`, with a guard against nil: the configured pair is attacked
     * when both filters are set; with only a base station, every directory
     * entry is attacked in turn (in the map's iteration order, `order`);
     * without a base station nothing is sent. An attack that needs a missing
     * directory or handle is refused as not initialized.
     */
    method SendDeauth() returns (r: Outcome, ghost order: seq<Mac>)
      requires Valid()
      modifies handle
      ensures SendDeauthPlan(bsTarget, clientTarget, DirectorySize(), handle != null).Refused? ==>
        && r == Fail(SendDeauthPlan(bsTarget, clientTarget, DirectorySize(), handle != null).error)
        && (handle != null ==> handle.written == old(handle.written))
      ensures SendDeauthPlan(bsTarget, clientTarget, DirectorySize(), handle != null).AttackPair? ==>
        && r == Pass && handle != null
        && handle.written == old(handle.written) + AttackTrace(bsTarget, clientTarget, handle.failing, |old(handle.written)|)
      ensures SendDeauthPlan(bsTarget, clientTarget, DirectorySize(), handle != null).Sweep? ==>
        && r == Pass && targets != null
        && |order| == |targets.entries|
        && (forall k :: k in order <==> k in targets.entries)
        && (forall i, j :: 0 <= i < j < |order| ==> order[i] != order[j])
        && (handle != null ==>
              handle.written == old(handle.written) + SweepTrace(bsTarget, order, handle.failing, |old(handle.written)|))
    {
      order := [];
      if |bsTarget| > 0 && |clientTarget| > 0 {
        if handle == null {
          return Fail(NotInitialized), order;
        }
        SendDeauthPacket(bsTarget, clientTarget);
      } else if |bsTarget| > 0 {
        if targets == null {
          return Fail(NotInitialized), order;
        }
        if handle != null {
          order := SweepDeauth(bsTarget);
        } else if |targets.entries| > 0 {
          return Fail(NotInitialized), order;
        }
      } else {
        return Fail(BaseStationNotSet), order;
      }
      r := Pass;
    }

    /**
     * `Show`: the directory, sorted by last-seen time (most recent first)
     * when `sortBy` is "seen" and by SSID then address otherwise, and the last
     * session events; refused before the first `wlan.recon on`.
     */
    method Show<E>(sortBy: string, events: seq<E>) returns (r: Outcome, rows: seq<WlanEndpoint>, shown: seq<E>)
      requires Valid()
      ensures targets == null ==> r == Fail(NotInitialized) && rows == [] && shown == []
      ensures targets != null ==> r == Pass && Lists(rows, targets.entries) && shown == LastEvents(events)
      ensures targets != null && sortBy == "seen" ==> Sorted(SeenLess, rows)
      ensures targets != null && sortBy != "seen" ==> Sorted(EssidLess, rows)
    {
      if targets == null {
        return Fail(NotInitialized), [], [];
      }
      var listing := targets.List();
      if sortBy == "seen" {
        rows := SortBy(SeenLess, listing);
        SeenLessIsStrictWeakOrder();
        SortBySorted(SeenLess, listing);
      } else {
        rows := SortBy(EssidLess, listing);
        EssidLessIsStrictWeakOrder();
        SortBySorted(EssidLess, listing);
      }
      ListsPermutation(listing, rows, targets.entries);
      shown := events;
      var size := |events|;
      if size > 0 {
        var max := MaxShownEvents;
        if size > max {
          var from := size - max;
          size := max;
          shown := events[from..];
        }
      }
      r := Pass;
    }
  }
}
