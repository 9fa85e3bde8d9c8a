/** The behaviour the client's design describes where its code does
    something else, written out next to the code's behaviour: a fan-out that
    carries on past a failing PUT, a connect that fetches the catalog right
    after a first pairing, and an error test on the shape of the lights
    reply rather than on its text. Each is related to the member of the
    model that follows the code. */
module IntendedDesign {
  import opened HueTypes
  import opened ErrorReply
  import opened LightMatching
  import opened AlertFanOut
  import opened HueSession

  /** The ids whose PUT fails, in list order. */
  function FailedIds(ids: seq<string>, statusOk: nat -> bool): (failed: seq<string>)
    ensures |failed| <= |ids|
  {
    if ids == [] then []
    else FailedIds(ids[..|ids| - 1], statusOk) + (if statusOk(|ids| - 1) then [] else [ids[|ids| - 1]])
  }

  /** A best-effort fan-out: every id gets its PUT, and a failing one is
      noted and skipped rather than ending the loop. */
  method SendAlertsBestEffort(ip: string, username: string, ids: seq<string>, mode: AlertMode, statusOk: nat -> bool)
    returns (sent: seq<Request>, failed: seq<string>)
    ensures sent == AlertRequests(ip, username, ids, mode)
    ensures failed == FailedIds(ids, statusOk)
  {
    sent, failed := [], [];
    var i := 0;
    while i < |ids|
      invariant 0 <= i <= |ids|
      invariant sent == AlertRequests(ip, username, ids[..i], mode)
      invariant failed == FailedIds(ids[..i], statusOk)
    {
      assert ids[..i + 1][..i] == ids[..i];
      sent := sent + [AlertRequest(ip, username, ids[i], mode)];
      if !statusOk(i) {
        failed := failed + [ids[i]];
      }
      i := i + 1;
    }
    assert ids[..i] == ids;
  }

  /** A best-effort fan-out reports no failure exactly when every PUT succeeds. */
  lemma {:induction false} NoFailedIdsIffAllSucceed(ids: seq<string>, statusOk: nat -> bool)
    ensures FailedIds(ids, statusOk) == [] <==> forall i :: 0 <= i < |ids| ==> statusOk(i)
  {
    if ids != [] {
      NoFailedIdsIffAllSucceed(ids[..|ids| - 1], statusOk);
    }
  }

  /** What the code sends is always a prefix of what the best-effort fan-out
      sends, and the two agree exactly when no PUT before the last fails. */
  lemma StoppingFanOutIsPrefixOfBestEffort(ip: string, username: string, ids: seq<string>, mode: AlertMode,
                                           statusOk: nat -> bool)
    ensures
      var sent := SentRequests(ip, username, ids, mode, statusOk);
      AlertRequests(ip, username, ids, mode)[..|sent|] == sent
    ensures SentRequests(ip, username, ids, mode, statusOk) == AlertRequests(ip, username, ids, mode) <==>
              forall i :: 0 <= i < |ids| - 1 ==> statusOk(i)
  {
    var n := |ids|;
    if forall i :: 0 <= i < n - 1 ==> statusOk(i) {
      match FirstFailure(statusOk, 0, n)
      case None =>
      case Some(k) =>
        assert k == n - 1;
    }
  }

  /** ConnectToHueBridge as its design describes it: a first pairing that
      succeeds goes on to fetch the catalog with the new credential in the
      same flow. */
  function ConnectAndFetch(st: State, replies: ConnectReplies): (r: Step<ConnectResult>)
    requires Consistent(st)
    ensures Consistent(r.after)
    ensures LoadCredential(st.credentialFile, st.authUser).Some? || Connect(st, replies).result != Connected ==>
              r == Connect(st, replies)
    ensures LoadCredential(st.credentialFile, st.authUser).None? && Connect(st, replies).result == Connected ==>
              Connect(st, replies).after.authUser.Some? &&
              r == FetchLightsStep(Connect(st, replies).after, SelectBridge(replies.discovery).value,
                                   Connect(st, replies).after.authUser.value, replies.lights)
  {
    var c := Connect(st, replies);
    if LoadCredential(st.credentialFile, st.authUser).None? && c.result == Connected then
      FetchLightsStep(c.after, c.after.bridge.value, c.after.authUser.value, replies.lights)
    else c
  }

  /** With the catalog fetched right after a first pairing, the test alert
      that follows the click finds the watched lights and sends their PUTs,
      where the code's flow throws before sending anything. */
  lemma ImmediateFetchLetsTestAlertFlash(st: State, replies: ConnectReplies, statusOk: nat -> bool)
    requires Consistent(st) && st.authUser.None? && st.credentialFile.None?
    requires Connect(st, replies).result == Connected
    requires replies.lights.LightsAnswer? && !IsErrorReply(replies.lights.text)
    requires replies.lights.asCatalog.Parsed? && st.watchFile.Some?
    ensures Flash(Connect(st, replies).after.(connected := true), Select, statusOk).result == Faulted
    ensures
      var r := ConnectAndFetch(st, replies);
      var catalog, watch := replies.lights.asCatalog.value, st.watchFile.value;
      && r.result == Connected
      && r.after.catalog == Some(catalog) && r.after.watch == st.watchFile
      && Flash(r.after.(connected := true), Select, statusOk).result.Flashed?
      && (MatchedIds(catalog, watch) != [] ==>
            Flash(r.after.(connected := true), Select, statusOk).after.requests ==
              r.after.requests + SentRequests(SelectBridge(replies.discovery).value.ip,
                                              r.after.authUser.value.username,
                                              MatchedIds(catalog, watch), Select, statusOk))
  {
  }

  /** The lights reply is an error when it deserialises to a non-empty error
      list, whatever words its light names contain. */
  predicate IsErrorShape(asErrors: Parsed<seq<BridgeError>>)
  {
    First(asErrors).Some?
  }

  /** The lights branch of ConnectToHueBridge with the error test made on the
      reply's shape. */
  function FetchLightsByShape(st: State, addr: BridgeAddress, user: Credential, reply: LightsReply): (r: Step<ConnectResult>)
    ensures r.after.requests == st.requests + [GetLights(addr.ip, user.username)]
    ensures r.result == Connected <==>
              reply.LightsAnswer? && !IsErrorShape(reply.asErrors) && !reply.asCatalog.Malformed? && st.watchFile.Some?
    ensures r.result.Refused? <==> reply.LightsAnswer? && IsErrorShape(reply.asErrors)
    ensures r.result == Connected ==> r.after.catalog == CatalogOf(reply.asCatalog) && r.after.watch == st.watchFile
    ensures !(reply.LightsAnswer? && !IsErrorShape(reply.asErrors)) ==>
              r.after.catalog == st.catalog && r.after.watch == st.watch
  {
    var sent := st.(requests := st.requests + [GetLights(addr.ip, user.username)]);
    match reply
    case LightsUnreachable => Step(sent, Threw)
    case LightsAnswer(_, asErrors, asCatalog) =>
      match First(asErrors)
      case Some(e) =>
        Step(sent.(log := sent.log + [TokenErrorPrefix + e.description + TokenErrorAdvice]), Refused(e.description))
      case None =>
        if asCatalog.Malformed? then Step(sent, Threw)
        else
          var replaced := sent.(catalog := CatalogOf(asCatalog));
          match st.watchFile
          case None => Step(replaced, Threw)
          case Some(names) => Step(replaced.(watch := Some(names)), Connected)
  }

  /** Where the text test and the shape test agree, so do the two lights
      branches. */
  lemma ShapeTestAgreesWithTextTest(st: State, addr: BridgeAddress, user: Credential, reply: LightsReply)
    requires reply.LightsAnswer? ==> (IsErrorReply(reply.text) <==> IsErrorShape(reply.asErrors))
    ensures FetchLightsByShape(st, addr, user, reply) == FetchLightsStep(st, addr, user, reply)
  {
  }

  /** A catalog holding a light named "Terror", which the code's text test
      takes for an error, connects under the shape test and replaces the
      catalog. */
  lemma TerrorCatalogConnectsByShape(st: State, addr: BridgeAddress, user: Credential,
                                     before: string, after: string, lights: seq<Light>)
    requires st.watchFile.Some?
    ensures
      var reply := LightsAnswer(before + "\"name\":\"Terror\"" + after, Malformed, Parsed(lights));
      && FetchLightsStep(st, addr, user, reply).result == Threw
      && FetchLightsByShape(st, addr, user, reply).result == Connected
      && FetchLightsByShape(st, addr, user, reply).after.catalog == Some(lights)
  {
    var part := "\"name\":\"Terror\"";
    assert part == "\"name\":\"T" + "error" + "\"";
    LowercaseErrorIsError("\"name\":\"T", "\"");
    ErrorInPartMakesErrorReply(before, part, after);
  }
}
