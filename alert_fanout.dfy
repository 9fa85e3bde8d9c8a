/** The second half of AlertHueLights and TestHueLights: one state PUT per
    collected light id, sent one after the other in list order. The bridge's
    status for each PUT is an input; `EnsureSuccessStatusCode` turns the first
    failing status into an exception, so no later PUT is sent. */
module AlertFanOut {
  import opened HueTypes

  datatype FanOutOutcome = AllSucceeded | FailedAt(index: nat)

  /** The PUT for light `id`, addressed with the session's bridge and user. */
  function AlertRequest(ip: string, username: string, id: string, mode: AlertMode): Request
  {
    SetAlert(ip, username, id, AlertValue(mode))
  }

  /** The PUTs for `ids`, all of them, in list order. */
  function AlertRequests(ip: string, username: string, ids: seq<string>, mode: AlertMode): (puts: seq<Request>)
    ensures |puts| == |ids|
    ensures forall k :: 0 <= k < |ids| ==> puts[k] == SetAlert(ip, username, ids[k], AlertValue(mode))
  {
    if ids == [] then []
    else AlertRequests(ip, username, ids[..|ids| - 1], mode) + [AlertRequest(ip, username, ids[|ids| - 1], mode)]
  }

  /** The position of the first of `n` PUTs whose status fails, counting from `from`. */
  function FirstFailure(statusOk: nat -> bool, from: nat, n: nat): (r: Option<nat>)
    requires from <= n
    ensures r.None? <==> forall i :: from <= i < n ==> statusOk(i)
    ensures r.Some? ==> from <= r.value < n && !statusOk(r.value) &&
                        forall i :: from <= i < r.value ==> statusOk(i)
    decreases n - from
  {
    if from == n then None
    else if !statusOk(from) then Some(from)
    else FirstFailure(statusOk, from + 1, n)
  }

  /** How many of `n` PUTs are sent: all of them, or up to and including the
      first that fails. */
  function SentCount(statusOk: nat -> bool, n: nat): (c: nat)
    ensures c <= n
    ensures (forall i :: 0 <= i < n ==> statusOk(i)) ==> c == n
    ensures c < n ==> 0 < c && !statusOk(c - 1)
    ensures forall i :: 0 <= i < c - 1 ==> statusOk(i)
  {
    match FirstFailure(statusOk, 0, n)
    case None => n
    case Some(k) => k + 1
  }

  function FanOutResult(statusOk: nat -> bool, n: nat): FanOutOutcome
  {
    match FirstFailure(statusOk, 0, n)
    case None => AllSucceeded
    case Some(k) => FailedAt(k)
  }

  /** The PUTs that actually go out for `ids`. */
  function SentRequests(ip: string, username: string, ids: seq<string>, mode: AlertMode, statusOk: nat -> bool): (sent: seq<Request>)
    ensures |sent| <= |ids|
    ensures (forall i :: 0 <= i < |ids| ==> statusOk(i)) ==> |sent| == |ids|
    ensures forall k :: 0 <= k < |sent| ==> sent[k] == SetAlert(ip, username, ids[k], AlertValue(mode))
  {
    AlertRequests(ip, username, ids, mode)[..SentCount(statusOk, |ids|)]
  }

  /** The second loop: sends the PUTs in order and stops after the first one
      whose status is not a success. */
  method SendAlerts(ip: string, username: string, ids: seq<string>, mode: AlertMode, statusOk: nat -> bool)
    returns (sent: seq<Request>, outcome: FanOutOutcome)
    ensures sent == SentRequests(ip, username, ids, mode, statusOk)
    ensures outcome == FanOutResult(statusOk, |ids|)
    ensures outcome == AllSucceeded <==> |sent| == |ids| && forall i :: 0 <= i < |ids| ==> statusOk(i)
    ensures outcome.FailedAt? ==> |sent| == outcome.index + 1 && !statusOk(outcome.index)
    ensures forall i :: 0 <= i < |sent| ==> sent[i] == SetAlert(ip, username, ids[i], AlertValue(mode))
  {
    sent := [];
    var i := 0;
    while i < |ids|
      invariant 0 <= i <= |ids|
      invariant sent == AlertRequests(ip, username, ids, mode)[..i]
      invariant forall j :: 0 <= j < i ==> statusOk(j)
    {
      sent := sent + [AlertRequest(ip, username, ids[i], mode)];
      if !statusOk(i) {
        assert FirstFailure(statusOk, 0, |ids|) == Some(i) by { FirstFailureIs(statusOk, 0, |ids|, i); }
        outcome := FailedAt(i);
        return;
      }
      i := i + 1;
    }
    assert AlertRequests(ip, username, ids, mode)[..i] == AlertRequests(ip, username, ids, mode);
    outcome := AllSucceeded;
  }

  /** The first failure is the one before which every status succeeded. */
  lemma {:induction false} FirstFailureIs(statusOk: nat -> bool, from: nat, n: nat, k: nat)
    requires from <= k < n && !statusOk(k)
    requires forall i :: from <= i < k ==> statusOk(i)
    ensures FirstFailure(statusOk, from, n) == Some(k)
    decreases k - from
  {
    if from < k {
      FirstFailureIs(statusOk, from + 1, n, k);
    }
  }

  /** With every status a success, one PUT per id is sent, in list order. */
  lemma AllSucceedSendsOnePerId(ip: string, username: string, ids: seq<string>, mode: AlertMode, statusOk: nat -> bool)
    requires forall i :: 0 <= i < |ids| ==> statusOk(i)
    ensures SentRequests(ip, username, ids, mode, statusOk) == AlertRequests(ip, username, ids, mode)
    ensures FanOutResult(statusOk, |ids|) == AllSucceeded
  {
  }

  /** A failing status stops the fan-out: the PUTs sent are the ones before it
      and the failing one itself, and the ids after it get nothing. */
  lemma FailureStopsLaterPuts(ip: string, username: string, ids: seq<string>, mode: AlertMode, statusOk: nat -> bool, k: nat)
    requires k < |ids| && !statusOk(k)
    requires forall i :: 0 <= i < k ==> statusOk(i)
    ensures SentRequests(ip, username, ids, mode, statusOk) == AlertRequests(ip, username, ids[..k + 1], mode)
    ensures FanOutResult(statusOk, |ids|) == FailedAt(k)
  {
  }
}
