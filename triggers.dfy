/** When the acceptor window alerts: the background worker runs the helper
    executable and waits for it; the completion handler flashes the lights
    only after a run that was neither cancelled nor failed, and only while the
    bridge is connected. */
module Triggers {

  /** How the helper run ended: with an exit code, or the worker threw
      (the executable could not be started). */
  datatype HelperRun = Exited(code: int) | LaunchFailed

  /** What the worker reports to its completion handler. */
  datatype Completion = Completion(cancelled: bool, failed: bool)

  /** The helper's exit code for "operation cancelled". */
  const CancelExitCode: int := 2

  /** OnDoWork: exit code 2 sets `Cancel`; an exception becomes `Error` and a
      worker that threw is never reported as cancelled. */
  function Complete(run: HelperRun): (c: Completion)
    ensures c.cancelled <==> run.Exited? && run.code == CancelExitCode
    ensures c.failed <==> run.LaunchFailed?
    ensures !(c.cancelled && c.failed)
  {
    match run
    case Exited(code) => Completion(code == CancelExitCode, false)
    case LaunchFailed => Completion(false, true)
  }

  /** OnRunWorkerCompleted: the alert fires on the branch that is neither
      the cancelled one nor the error one, and only when connected. */
  function ShouldAlert(c: Completion, connected: bool): (fire: bool)
    ensures fire ==> connected && !c.cancelled && !c.failed
    ensures connected && !c.cancelled && !c.failed ==> fire
  {
    if c.cancelled then false
    else if c.failed then false
    else connected
  }

  /** The alert fires exactly when the helper exited with a code other than 2
      while the bridge was connected; every other exit code, including one
      that signals a failure of the helper, fires it. */
  lemma AlertsExactlyOnUncancelledExit(run: HelperRun, connected: bool)
    ensures ShouldAlert(Complete(run), connected) <==>
              connected && run.Exited? && run.code != CancelExitCode
  {
  }
}
