/**
 * The deauthentication engine's specification: the frames one attack writes,
 * how many writes it attempts against a handle that may fail, and the frames
 * a sweep over several clients writes.
 */
module Deauth {
  import opened GoTypes
  import opened Dot11

  /** Number of rounds of one attack; each round writes two frames. */
  const Rounds: nat := 64

  /** The injection handle: every write attempt is recorded; `failing` says which attempts fail. */
  class InjectionHandle {
    /** Every frame passed to `WritePacketData`, including one whose write failed. */
    var written: seq<DeauthFrame>
    /** The write oracle: attempt number `k` (counted from 0 over the handle's life) fails iff `k in failing`. */
    const failing: set<nat>

    constructor (failing: set<nat>)
      ensures written == [] && this.failing == failing
    {
      written := [];
      this.failing := failing;
    }

    /** `WritePacketData`: reports failure as the oracle says. */
    method WritePacketData(pkt: DeauthFrame) returns (failed: bool)
      modifies this
      ensures written == old(written) + [pkt]
      ensures failed <==> |old(written)| in failing
    {
      failed := |written| in failing;
      written := written + [pkt];
    }
  }

  /**
   * Write `k` of one complete attack on the pair (`ap`, `client`): round k / 2
   * sends its first frame to the base station and its second to the client.
   */
  function AttackFrame(ap: Mac, client: Mac, k: nat): (f: DeauthFrame)
    requires k < 2 * Rounds
    ensures f.frameType == MgmtDeauthentication && f.reason == Class2FromNonAuth
    ensures f.address3 == ap && f.sequenceNumber == k / 2
    ensures k % 2 == 0 ==> f.address1 == ap && f.address2 == client
    ensures k % 2 == 1 ==> f.address1 == client && f.address2 == ap
  {
    if k % 2 == 0 then BuildDeauthPkt(ap, client, ap, MgmtDeauthentication, Class2FromNonAuth, k / 2)
    else BuildDeauthPkt(client, ap, ap, MgmtDeauthentication, Class2FromNonAuth, k / 2)
  }

  /** Every frame one complete attack on the pair (`ap`, `client`) writes, in order. */
  function DeauthFrames(ap: Mac, client: Mac): (f: seq<DeauthFrame>)
    ensures |f| == 2 * Rounds
  {
    seq(2 * Rounds, k requires 0 <= k < 2 * Rounds => AttackFrame(ap, client, k))
  }

  /**
   * One complete attack writes 128 frames. Write 2s is (A1 = ap, A2 = client,
   * A3 = ap) and write 2s+1 is (A1 = client, A2 = ap, A3 = ap), both with
   * sequence number s; every frame is a deauthentication with reason
   * Class2FromNonAuth, and sequence numbers never go down.
   */
  lemma DeauthFramesShape(ap: Mac, client: Mac)
    ensures |DeauthFrames(ap, client)| == 128
    ensures forall k :: 0 <= k < 128 ==>
      (DeauthFrames(ap, client)[k] ==
        if k % 2 == 0 then DeauthFrame(ap, client, ap, MgmtDeauthentication, Class2FromNonAuth, k / 2)
        else DeauthFrame(client, ap, ap, MgmtDeauthentication, Class2FromNonAuth, k / 2))
    ensures forall i, j :: 0 <= i <= j < 128 ==>
      DeauthFrames(ap, client)[i].sequenceNumber <= DeauthFrames(ap, client)[j].sequenceNumber
  {
  }

  /** Round `s` of an attack adds its frame to the base station, then its frame to the client. */
  lemma RoundFrames(ap: Mac, client: Mac, s: nat)
    requires s < Rounds
    ensures |DeauthFrames(ap, client)| == 2 * Rounds
    ensures DeauthFrames(ap, client)[..2 * s + 1] ==
      DeauthFrames(ap, client)[..2 * s] + [BuildDeauthPkt(ap, client, ap, MgmtDeauthentication, Class2FromNonAuth, s)]
    ensures DeauthFrames(ap, client)[..2 * s + 2] ==
      DeauthFrames(ap, client)[..2 * s + 1] + [BuildDeauthPkt(client, ap, ap, MgmtDeauthentication, Class2FromNonAuth, s)]
  {
    var f := DeauthFrames(ap, client);
    assert f[2 * s] == AttackFrame(ap, client, 2 * s);
    assert f[2 * s + 1] == AttackFrame(ap, client, 2 * s + 1);
    Snoc(f, 2 * s);
    Snoc(f, 2 * s + 1);
  }

  /** The first k + 1 elements are the first k followed by element k. */
  lemma Snoc<T>(f: seq<T>, k: nat)
    requires k < |f|
    ensures f[..k + 1] == f[..k] + [f[k]]
  {
  }

  /** No write attempt numbered from `lo` up to (not including) `hi` fails. */
  ghost predicate NoFailureIn(failing: set<nat>, lo: nat, hi: nat)
  {
    forall i :: lo <= i < hi ==> i !in failing
  }

  /**
   * Number of write attempts from attempt `k` of an attack on a handle that has
   * already seen `base` attempts: the attack stops right after the first
   * failing write, or after all 128.
   */
  function AttemptsFrom(failing: set<nat>, base: nat, k: nat): (n: nat)
    requires k <= 2 * Rounds
    ensures k <= n <= 2 * Rounds
    decreases 2 * Rounds - k
  {
    if k == 2 * Rounds then k
    else if base + k in failing then k + 1
    else AttemptsFrom(failing, base, k + 1)
  }

  /** Number of write attempts one attack makes on a handle that has already seen `base` attempts. */
  function Attempts(failing: set<nat>, base: nat): nat
  {
    AttemptsFrom(failing, base, 0)
  }

  lemma {:induction false} AttemptsFromStop(failing: set<nat>, base: nat, k: nat)
    requires k <= 2 * Rounds
    ensures var n := AttemptsFrom(failing, base, k);
      && NoFailureIn(failing, base + k, base + n - 1)
      && (n < 2 * Rounds ==> base + n - 1 in failing)
    decreases 2 * Rounds - k
  {
    if k < 2 * Rounds && base + k !in failing {
      AttemptsFromStop(failing, base, k + 1);
    }
  }

  /**
   * An attack makes at least one attempt; every attempt before the last one
   * succeeded, and unless all 128 were made, the last one failed: nothing is
   * written after a failure.
   */
  lemma AttemptsStopAtFailure(failing: set<nat>, base: nat)
    ensures var n := Attempts(failing, base);
      && 1 <= n <= 2 * Rounds
      && NoFailureIn(failing, base, base + n - 1)
      && (n < 2 * Rounds ==> base + n - 1 in failing)
  {
    AttemptsFromStop(failing, base, 0);
  }

  /** With every write succeeding, an attack makes exactly 128 attempts. */
  lemma AttemptsAllSucceed(failing: set<nat>, base: nat)
    requires NoFailureIn(failing, base, base + 2 * Rounds)
    ensures Attempts(failing, base) == 2 * Rounds
  {
    AttemptsStopAtFailure(failing, base);
  }

  /** If write `k` is the first to fail, the attack makes exactly `k + 1` attempts. */
  lemma AttemptsFirstFailure(failing: set<nat>, base: nat, k: nat)
    requires k < 2 * Rounds && base + k in failing
    requires NoFailureIn(failing, base, base + k)
    ensures Attempts(failing, base) == k + 1
  {
    AttemptsStopAtFailure(failing, base);
  }

  /**
   * The frames one attack writes on a handle that has already seen `base`
   * attempts: the first `Attempts(failing, base)` frames of the attack.
   */
  function AttackTrace(ap: Mac, client: Mac, failing: set<nat>, base: nat): (t: seq<DeauthFrame>)
    ensures 1 <= |t| <= 2 * Rounds
    ensures forall k :: 0 <= k < |t| ==> t[k] == DeauthFrames(ap, client)[k]
  {
    var n := Attempts(failing, base);
    seq(n, k requires 0 <= k < n => AttackFrame(ap, client, k))
  }

  /** When write `k` of an attack is the first to fail, the attack writes frames 0 to `k`. */
  lemma AttackTraceStopsAt(ap: Mac, client: Mac, failing: set<nat>, base: nat, k: nat)
    requires k < 2 * Rounds && base + k in failing
    requires NoFailureIn(failing, base, base + k)
    ensures AttackTrace(ap, client, failing, base) == DeauthFrames(ap, client)[..k + 1]
  {
    AttemptsFirstFailure(failing, base, k);
  }

  /** With every write succeeding, an attack writes its complete 128-frame sequence. */
  lemma AttackTraceAllSucceed(ap: Mac, client: Mac, failing: set<nat>, base: nat)
    requires NoFailureIn(failing, base, base + 128)
    ensures AttackTrace(ap, client, failing, base) == DeauthFrames(ap, client)
  {
    AttemptsAllSucceed(failing, base);
  }

  /**
   * The frames a sweep writes when it attacks `clients` in this order: each
   * attack starts where the previous one stopped on the handle, and a failed
   * attack does not stop the sweep.
   */
  function SweepTrace(ap: Mac, clients: seq<Mac>, failing: set<nat>, base: nat): seq<DeauthFrame>
    decreases |clients|
  {
    if clients == [] then []
    else AttackTrace(ap, clients[0], failing, base) + SweepTrace(ap, clients[1..], failing, base + Attempts(failing, base))
  }

  /** The complete attacks on `clients`, one after the other. */
  function FullSweep(ap: Mac, clients: seq<Mac>): seq<DeauthFrame>
    decreases |clients|
  {
    if clients == [] then []
    else DeauthFrames(ap, clients[0]) + FullSweep(ap, clients[1..])
  }
}
