/** The Hue session as a value, and what each operation of the acceptor
    window does to it: ConnectToHueBridge, AlertHueLights and TestHueLights,
    the connect button handler and the worker completion handler. The class
    in module HueClient performs the same operations step by step on fields
    and is proved to reach exactly these states. */
module HueSession {
  import opened HueTypes
  import opened ErrorReply
  import opened LightMatching
  import opened AlertFanOut
  import opened Triggers

  /** The static fields of the window, its `_hueConnected` flag, the two
      configuration files, the log file and the requests sent so far. */
  datatype State = State(
    bridge: Option<BridgeAddress>,       // HueBridgeDetails.ip / .id
    authUser: Option<Credential>,        // _hueAuthUser
    catalog: Option<seq<Light>>,         // _hueBridgeLights, in enumeration order
    watch: Option<seq<string>>,          // _hueUserLights.Lights, by Name
    connected: bool,                     // _hueConnected
    credentialFile: Option<Credential>,  // Config\HueAuthentication.xml; None when it cannot be read
    watchFile: Option<seq<string>>,      // Config\HueUserLights.xml; None when it cannot be read
    log: seq<string>,                    // entries of Logs\log.txt
    requests: seq<Request>)              // requests sent, oldest first

  /** The state a process starts in: every session field null. */
  function Initial(credentialFile: Option<Credential>, watchFile: Option<seq<string>>): (st: State)
    ensures Consistent(st) && !st.connected && st.requests == []
    ensures st.bridge.None? && st.authUser.None? && st.catalog.None? && st.watch.None? && st.log == []
    ensures st.credentialFile == credentialFile && st.watchFile == watchFile
  {
    State(None, None, None, None, false, credentialFile, watchFile, [], [])
  }

  /** What every reachable state satisfies: a catalog, a watch-list or a
      connection exist only once a credential is held, and a credential only
      once a bridge has been chosen. */
  predicate Consistent(st: State)
  {
    && (st.catalog.Some? ==> st.authUser.Some?)
    && (st.watch.Some? ==> st.authUser.Some?)
    && (st.connected ==> st.authUser.Some?)
    && (st.authUser.Some? ==> st.bridge.Some?)
  }

  /** The replies the environment gives to one connect attempt; only those
      the flow asks for are consulted. `saveSucceeds` says whether writing
      the credential file works. */
  datatype ConnectReplies = ConnectReplies(
    discovery: DiscoveryReply,
    pairing: PairReply,
    saveSucceeds: bool,
    lights: LightsReply)

  /** `return true`, `return false` (with the bridge's description), or an
      exception out of ConnectToHueBridge. */
  datatype ConnectResult = Connected | Refused(description: string) | Threw

  /** The state after an operation, and what the operation returned. */
  datatype Step<R> = Step(after: State, result: R)

  const PairingAdvice: string := ". Press Link Button on Hue Bridge and try again."
  const TokenErrorPrefix: string := "Hue Authentication Token Error:"
  const TokenErrorAdvice: string := ". Delete Authentication configuration file and try again or update Authentication token."

  /** `after` extends `before`, and none of the requests added is a pairing POST. */
  predicate NoPairingSince(before: seq<Request>, after: seq<Request>)
  {
    |before| <= |after| && after[..|before|] == before &&
    forall i :: |before| <= i < |after| ==> !after[i].Pair?
  }

  /** The bridge the session uses: the first discovery entry. A failed GET,
      a body that is not a list, or an empty list makes `First()` throw. */
  function SelectBridge(reply: DiscoveryReply): (r: Option<BridgeAddress>)
    ensures r.Some? <==> reply.DiscoveryAnswer? && reply.candidates.Parsed? && |reply.candidates.value| > 0
    ensures r.Some? ==> r.value == BridgeAddress(reply.candidates.value[0].internalIpAddress, reply.candidates.value[0].id)
  {
    match reply
    case DiscoveryUnreachable => None
    case DiscoveryAnswer(candidates) =>
      match First(candidates)
      case None => None
      case Some(c) => Some(BridgeAddress(c.internalIpAddress, c.id))
  }

  /** The try/catch around ReadHueAuthXml: a readable file replaces the
      credential held, an unreadable one leaves the previous value. */
  function LoadCredential(file: Option<Credential>, held: Option<Credential>): (r: Option<Credential>)
    ensures r.Some? <==> file.Some? || held.Some?
    ensures file.Some? ==> r == file
    ensures file.None? ==> r == held
  {
    if file.Some? then file else held
  }

  /** The pairing branch of ConnectToHueBridge, taken when no credential is
      held: one POST carrying the fixed device type. */
  function PairStep(st: State, addr: BridgeAddress, reply: PairReply, saveSucceeds: bool): (r: Step<ConnectResult>)
    requires st.authUser.None?
    ensures r.after.requests == st.requests + [Pair(addr.ip, DeviceType)]
    ensures r.after.(authUser := st.authUser, credentialFile := st.credentialFile,
                     log := st.log, requests := st.requests) == st
    ensures r.result == Connected <==>
              reply.PairAnswer? && !IsErrorReply(reply.text) && First(reply.asSuccesses).Some? && saveSucceeds
    ensures r.result == Connected ==>
              r.after.authUser == First(reply.asSuccesses) && r.after.credentialFile == r.after.authUser
    ensures r.after.authUser.Some? ==>
              reply.PairAnswer? && !IsErrorReply(reply.text) && r.after.authUser == First(reply.asSuccesses)
    ensures r.after.credentialFile != st.credentialFile ==> r.result == Connected
    ensures reply.PairAnswer? && IsErrorReply(reply.text) ==>
              r.result != Connected && r.after.authUser.None? && r.after.credentialFile == st.credentialFile
    ensures r.result.Refused? <==> reply.PairAnswer? && IsErrorReply(reply.text) && First(reply.asErrors).Some?
    ensures r.result.Refused? ==>
              r.result.description == First(reply.asErrors).value.description &&
              r.after.log == st.log + [r.result.description + PairingAdvice]
    ensures !r.result.Refused? ==> r.after.log == st.log
    ensures reply.PairAnswer? && !IsErrorReply(reply.text) && First(reply.asSuccesses).Some? ==>
              r.after.authUser == First(reply.asSuccesses)
    ensures reply.PairAnswer? && !IsErrorReply(reply.text) && First(reply.asSuccesses).Some? && !saveSucceeds ==>
              r.result == Threw && r.after.credentialFile == st.credentialFile
  {
    var sent := st.(requests := st.requests + [Pair(addr.ip, DeviceType)]);
    match reply
    case PairHttpFailure => Step(sent, Threw)
    case PairAnswer(text, asErrors, asSuccesses) =>
      if IsErrorReply(text) then
        match First(asErrors)
        case None => Step(sent, Threw)
        case Some(e) => Step(sent.(log := sent.log + [e.description + PairingAdvice]), Refused(e.description))
      else
        match First(asSuccesses)
        case None => Step(sent, Threw)
        case Some(c) =>
          var held := sent.(authUser := Some(c));
          if saveSucceeds then Step(held.(credentialFile := Some(c)), Connected)
          else Step(held, Threw)
  }

  /** The catalog a lights body deserialises to: a dictionary or null. */
  function CatalogOf(parsed: Parsed<seq<Light>>): Option<seq<Light>>
  {
    if parsed.Parsed? then Some(parsed.value) else None
  }

  /** The lights branch of ConnectToHueBridge, taken when a credential is
      held: one GET, authenticated with that credential. */
  function FetchLightsStep(st: State, addr: BridgeAddress, user: Credential, reply: LightsReply): (r: Step<ConnectResult>)
    ensures r.after.requests == st.requests + [GetLights(addr.ip, user.username)]
    ensures r.after.(catalog := st.catalog, watch := st.watch, log := st.log, requests := st.requests) == st
    ensures r.result == Connected <==>
              reply.LightsAnswer? && !IsErrorReply(reply.text) && !reply.asCatalog.Malformed? && st.watchFile.Some?
    ensures r.result == Connected ==>
              r.after.catalog == CatalogOf(reply.asCatalog) && r.after.watch == st.watchFile
    ensures r.after.catalog != st.catalog ==>
              reply.LightsAnswer? && !IsErrorReply(reply.text) && r.after.catalog == CatalogOf(reply.asCatalog)
    ensures r.after.watch != st.watch ==> r.result == Connected
    ensures reply.LightsAnswer? && IsErrorReply(reply.text) ==>
              r.result != Connected && r.after.catalog == st.catalog && r.after.watch == st.watch
    ensures r.result.Refused? <==> reply.LightsAnswer? && IsErrorReply(reply.text) && First(reply.asErrors).Some?
    ensures r.result.Refused? ==>
              r.result.description == First(reply.asErrors).value.description &&
              r.after.log == st.log + [TokenErrorPrefix + r.result.description + TokenErrorAdvice]
    ensures !r.result.Refused? ==> r.after.log == st.log
    ensures reply.LightsAnswer? && !IsErrorReply(reply.text) && !reply.asCatalog.Malformed? ==>
              r.after.catalog == CatalogOf(reply.asCatalog)
    ensures reply.LightsAnswer? && !IsErrorReply(reply.text) && !reply.asCatalog.Malformed? && st.watchFile.None? ==>
              r.result == Threw && r.after.watch == st.watch
  {
    var sent := st.(requests := st.requests + [GetLights(addr.ip, user.username)]);
    match reply
    case LightsUnreachable => Step(sent, Threw)
    case LightsAnswer(text, asErrors, asCatalog) =>
      if IsErrorReply(text) then
        match First(asErrors)
        case None => Step(sent, Threw)
        case Some(e) =>
          Step(sent.(log := sent.log + [TokenErrorPrefix + e.description + TokenErrorAdvice]), Refused(e.description))
      else if asCatalog.Malformed? then Step(sent, Threw)
      else
        var replaced := sent.(catalog := CatalogOf(asCatalog));
        match st.watchFile
        case None => Step(replaced, Threw)
        case Some(names) => Step(replaced.(watch := Some(names)), Connected)
  }

  /** ConnectToHueBridge: discover, load the stored credential, then pair
      when none is held or fetch the lights when one is. */
  function Connect(st: State, replies: ConnectReplies): (r: Step<ConnectResult>)
    requires Consistent(st)
    ensures Consistent(r.after)
    ensures r.after.connected == st.connected && r.after.watchFile == st.watchFile
    ensures |r.after.requests| > |st.requests| && r.after.requests[..|st.requests| + 1] == st.requests + [Discover]
    ensures SelectBridge(replies.discovery).None? ==>
              r == Step(st.(requests := st.requests + [Discover]), Threw)
    ensures SelectBridge(replies.discovery).Some? ==> r.after.bridge == SelectBridge(replies.discovery)
    ensures SelectBridge(replies.discovery).Some? && LoadCredential(st.credentialFile, st.authUser).Some? ==>
              r.after.authUser == LoadCredential(st.credentialFile, st.authUser) &&
              r.after.credentialFile == st.credentialFile &&
              r.after.requests == st.requests + [Discover, GetLights(SelectBridge(replies.discovery).value.ip,
                                                                     r.after.authUser.value.username)]
    ensures r.result == Connected ==> r.after.authUser.Some? && r.after.bridge == SelectBridge(replies.discovery)
    ensures LoadCredential(st.credentialFile, st.authUser).Some? ==> NoPairingSince(st.requests, r.after.requests)
    ensures st.authUser.Some? ==> r.after.authUser.Some?
    ensures st.credentialFile.Some? ==> r.after.credentialFile == st.credentialFile
  {
    var asked := st.(requests := st.requests + [Discover]);
    match SelectBridge(replies.discovery)
    case None => Step(asked, Threw)
    case Some(addr) =>
      var loaded := asked.(bridge := Some(addr), authUser := LoadCredential(st.credentialFile, st.authUser));
      if loaded.authUser.None? then PairStep(loaded, addr, replies.pairing, replies.saveSucceeds)
      else FetchLightsStep(loaded, addr, loaded.authUser.value, replies.lights)
  }

  datatype FlashOutcome = Faulted | Flashed(fanOut: FanOutOutcome)

  function CatalogOrEmpty(st: State): seq<Light>
  {
    if st.catalog.Some? then st.catalog.value else []
  }

  /** AlertHueLights (LongSelect) and TestHueLights (Select): collect the keys
      of the watched lights, log the names not found, then send one PUT per
      key until one fails. A null watch-list, or a null catalog with a
      non-empty watch-list, throws before anything happens. */
  function Flash(st: State, mode: AlertMode, statusOk: nat -> bool): (r: Step<FlashOutcome>)
    requires Consistent(st)
    ensures Consistent(r.after)
    ensures r.after.(log := st.log, requests := st.requests) == st
    ensures r.result == Faulted <==> st.watch.None? || (st.watch.value != [] && st.catalog.None?)
    ensures r.result == Faulted ==> r.after == st
    ensures r.result.Flashed? ==>
              r.after.log == st.log + SkipLog(CatalogOrEmpty(st), st.watch.value) &&
              |st.requests| <= |r.after.requests| <= |st.requests| + |MatchedIds(CatalogOrEmpty(st), st.watch.value)| &&
              r.after.requests[..|st.requests|] == st.requests
    ensures forall i :: |st.requests| <= i < |r.after.requests| ==>
              r.after.requests[i].SetAlert? && r.after.requests[i].alert == AlertValue(mode)
    ensures r.result.Flashed? && MatchedIds(CatalogOrEmpty(st), st.watch.value) != [] ==>
              r.after.requests == st.requests +
                SentRequests(st.bridge.value.ip, st.authUser.value.username,
                             MatchedIds(CatalogOrEmpty(st), st.watch.value), mode, statusOk) &&
              r.result.fanOut == FanOutResult(statusOk, |MatchedIds(CatalogOrEmpty(st), st.watch.value)|)
  {
    if st.watch.None? || (st.watch.value != [] && st.catalog.None?) then Step(st, Faulted)
    else
      var lights := CatalogOrEmpty(st);
      var ids := MatchedIds(lights, st.watch.value);
      var logged := st.(log := st.log + SkipLog(lights, st.watch.value));
      if ids == [] then Step(logged, Flashed(AllSucceeded))
      else
        var puts := SentRequests(st.bridge.value.ip, st.authUser.value.username, ids, mode, statusOk);
        Step(logged.(requests := st.requests + puts), Flashed(FanOutResult(statusOk, |ids|)))
  }

  /** toolStripButton1_Click: connect; any result other than `true`, an
      exception included, leaves the window disconnected; a successful
      connect is followed by the test alert. */
  function ConnectClick(st: State, replies: ConnectReplies, statusOk: nat -> bool): (r: State)
    requires Consistent(st)
    ensures Consistent(r)
    ensures r.connected <==> Connect(st, replies).result == Connected
    ensures r.catalog == Connect(st, replies).after.catalog && r.authUser == Connect(st, replies).after.authUser
    ensures Connect(st, replies).result == Connected ==>
              r == Flash(Connect(st, replies).after.(connected := true), Select, statusOk).after
    ensures Connect(st, replies).result != Connected ==> r == Connect(st, replies).after.(connected := false)
  {
    var c := Connect(st, replies);
    var flagged := c.after.(connected := c.result == Connected);
    if flagged.connected then Flash(flagged, Select, statusOk).after else flagged
  }

  /** OnRunWorkerCompleted after the helper run `run`. */
  function WorkerCompleted(st: State, run: HelperRun, statusOk: nat -> bool): (r: State)
    requires Consistent(st)
    ensures Consistent(r)
    ensures !ShouldAlert(Complete(run), st.connected) ==> r == st
    ensures ShouldAlert(Complete(run), st.connected) ==> r == Flash(st, LongSelect, statusOk).after
  {
    if ShouldAlert(Complete(run), st.connected) then Flash(st, LongSelect, statusOk).after else st
  }
}
