/**
 * What `wlan.deauth` does: the rule that picks the attack, as the source
 * writes it and with the missing guard, and the frames a sweep over the
 * directory writes.
 */
module Sweep {
  import opened GoTypes
  import opened Dot11
  import opened Deauth

  /** A sweep that attacks one more client writes that client's attack after the others. */
  lemma {:induction false} SweepTraceStep(ap: Mac, clients: seq<Mac>, c: Mac, failing: set<nat>, base: nat)
    ensures SweepTrace(ap, clients + [c], failing, base) ==
      SweepTrace(ap, clients, failing, base) + AttackTrace(ap, c, failing, base + |SweepTrace(ap, clients, failing, base)|)
    decreases |clients|
  {
    if clients == [] {
      assert [c][1..] == [];
    } else {
      var cs := clients + [c];
      var next := base + Attempts(failing, base);
      assert cs[0] == clients[0] && cs[1..] == clients[1..] + [c];
      SweepTraceStep(ap, clients[1..], c, failing, next);
    }
  }

  /**
   * With every write succeeding, a sweep over N clients writes exactly the N
   * complete attacks, 128 frames each.
   */
  lemma {:induction false} SweepAllSucceed(ap: Mac, clients: seq<Mac>, failing: set<nat>, base: nat)
    requires NoFailureIn(failing, base, base + 128 * |clients|)
    ensures SweepTrace(ap, clients, failing, base) == FullSweep(ap, clients)
    ensures |SweepTrace(ap, clients, failing, base)| == 128 * |clients|
    decreases |clients|
  {
    if clients != [] {
      AttackTraceAllSucceed(ap, clients[0], failing, base);
      AttemptsAllSucceed(failing, base);
      SweepAllSucceed(ap, clients[1..], failing, base + 128);
    }
  }

  /** The attack `SendDeauth` chooses. */
  datatype DeauthPlan =
    | AttackPair(ap: Mac, client: Mac)  // one attack on the configured pair
    | Sweep(ap: Mac)                    // one attack per directory entry
    | Refused(error: Error)             // an error, nothing written
    | NilDereference                    // the Go code dereferences a nil pointer and panics

  /**
   * `SendDeauth`'s switch as the source writes it. `directorySize` is the
   * number of directory entries, `None` while the directory pointer is nil
   * (before the first `wlan.recon on`); `haveHandle` is false while the
   * capture handle is nil. Reading `Targets.Targets` through a nil directory,
   * or writing through a nil handle, panics; a sweep over an empty directory
   * writes nothing and so does not touch the handle.
   */
  function SendDeauthAsWritten(bs: Mac, client: Mac, directorySize: Option<nat>, haveHandle: bool): (p: DeauthPlan)
    ensures p == Refused(BaseStationNotSet) <==> |bs| == 0
    ensures p == NilDereference <==>
      |bs| > 0 && (if |client| > 0 then !haveHandle else Unguarded(directorySize, haveHandle))
  {
    if |bs| > 0 && |client| > 0 then
      if haveHandle then AttackPair(bs, client) else NilDereference
    else if |bs| > 0 then
      if directorySize.None? then NilDereference
      else if directorySize.value > 0 && !haveHandle then NilDereference
      else Sweep(bs)
    else Refused(BaseStationNotSet)
  }

  /** A sweep would read a nil directory, or write to a nil handle for at least one entry. */
  predicate Unguarded(directorySize: Option<nat>, haveHandle: bool)
  {
    directorySize.None? || (directorySize.value > 0 && !haveHandle)
  }

  /** `wlan.recon set bs` followed by `wlan.deauth` before any `wlan.recon on` panics. */
  lemma DeauthBeforeStartPanics()
    ensures SendDeauthAsWritten([0x00, 0x11, 0x22, 0x33, 0x44, 0x55], [], None, false) == NilDereference
  {
  }

  /**
   * `SendDeauth` with the missing guard: an attack that would dereference a
   * nil directory or write through a nil handle is refused as not
   * initialized. A sweep over an empty directory without a handle still
   * succeeds and writes nothing, as in the source.
   */
  function SendDeauthPlan(bs: Mac, client: Mac, directorySize: Option<nat>, haveHandle: bool): (p: DeauthPlan)
    ensures p != NilDereference
    ensures p.AttackPair? <==> |bs| > 0 && |client| > 0 && haveHandle
    ensures p.Sweep? <==> |bs| > 0 && |client| == 0 && !Unguarded(directorySize, haveHandle)
    ensures p == Refused(BaseStationNotSet) <==> |bs| == 0
    ensures p.AttackPair? ==> p == AttackPair(bs, client)
    ensures p.Sweep? ==> p == Sweep(bs)
  {
    if |bs| == 0 then Refused(BaseStationNotSet)
    else if |client| > 0 then
      if haveHandle then AttackPair(bs, client) else Refused(NotInitialized)
    else if directorySize.None? then Refused(NotInitialized)
    else if directorySize.value > 0 && !haveHandle then Refused(NotInitialized)
    else Sweep(bs)
  }

  /**
   * Wherever the source does not panic, the guarded dispatch is the source's;
   * where it panics, the guarded one reports NotInitialized.
   */
  lemma SendDeauthPlanAgrees(bs: Mac, client: Mac, directorySize: Option<nat>, haveHandle: bool)
    ensures SendDeauthAsWritten(bs, client, directorySize, haveHandle) != NilDereference ==>
      SendDeauthPlan(bs, client, directorySize, haveHandle) == SendDeauthAsWritten(bs, client, directorySize, haveHandle)
    ensures SendDeauthAsWritten(bs, client, directorySize, haveHandle) == NilDereference ==>
      SendDeauthPlan(bs, client, directorySize, haveHandle) == Refused(NotInitialized)
  {
  }
}
