/** Properties of the Hue session over more than one operation: what a run
    of button clicks and helper completions can and cannot do to the stored
    credential, the deferred catalog fetch after a first pairing, and the
    worked examples of the client's behaviour. */
module SessionProperties {
  import opened HueTypes
  import opened ErrorReply
  import opened LightMatching
  import opened AlertFanOut
  import opened Triggers
  import opened HueSession

  /** Something the window reacts to. */
  datatype Event =
    | ConnectClicked(replies: ConnectReplies, statusOk: nat -> bool)
    | WorkerFinished(run: HelperRun, statusOk: nat -> bool)

  function Apply(st: State, e: Event): (r: State)
    requires Consistent(st)
    ensures Consistent(r)
  {
    match e
    case ConnectClicked(replies, statusOk) => ConnectClick(st, replies, statusOk)
    case WorkerFinished(run, statusOk) => WorkerCompleted(st, run, statusOk)
  }

  function Run(st: State, events: seq<Event>): (r: State)
    requires Consistent(st)
    ensures Consistent(r)
    decreases |events|
  {
    if events == [] then st else Run(Apply(st, events[0]), events[1..])
  }

  lemma NoPairingSinceTrans(a: seq<Request>, b: seq<Request>, c: seq<Request>)
    requires NoPairingSince(a, b) && NoPairingSince(b, c)
    ensures NoPairingSince(a, c)
  {
  }

  /** One event never clears a held credential, never rewrites the stored
      one, and once a credential is held it sends no pairing request. */
  lemma EventKeepsCredential(st: State, e: Event)
    requires Consistent(st)
    ensures st.authUser.Some? ==> Apply(st, e).authUser.Some?
    ensures st.credentialFile.Some? ==> Apply(st, e).credentialFile == st.credentialFile
    ensures st.authUser.Some? || st.credentialFile.Some? ==> NoPairingSince(st.requests, Apply(st, e).requests)
  {
  }

  /** Over any run of clicks and helper completions: a credential once held
      is never dropped, a stored credential is never regenerated, and from
      the moment a credential is held or stored no pairing request is sent. */
  lemma {:induction false} CredentialIsNeverRegenerated(st: State, events: seq<Event>)
    requires Consistent(st)
    ensures st.authUser.Some? ==> Run(st, events).authUser.Some?
    ensures st.credentialFile.Some? ==> Run(st, events).credentialFile == st.credentialFile
    ensures st.authUser.Some? || st.credentialFile.Some? ==> NoPairingSince(st.requests, Run(st, events).requests)
    decreases |events|
  {
    if events == [] {
      assert st.requests[..|st.requests|] == st.requests;
    } else {
      var next := Apply(st, events[0]);
      EventKeepsCredential(st, events[0]);
      CredentialIsNeverRegenerated(next, events[1..]);
      if st.authUser.Some? || st.credentialFile.Some? {
        NoPairingSinceTrans(st.requests, next.requests, Run(next, events[1..]).requests);
      }
    }
  }

  /** A helper completion while disconnected changes nothing. */
  lemma DisconnectedNeverAlerts(st: State, run: HelperRun, statusOk: nat -> bool)
    requires Consistent(st) && !st.connected
    ensures WorkerCompleted(st, run, statusOk) == st
  {
  }

  /** The first pairing connects without fetching the catalog, so the test
      alert that follows the click has no watch-list, throws, and sends no
      PUT; the catalog is only fetched by the next connect, with the
      credential just stored and without pairing again. */
  lemma FirstPairingDefersCatalog(st: State, replies: ConnectReplies, statusOk: nat -> bool,
                                  again: ConnectReplies)
    requires Consistent(st) && st.authUser.None? && st.credentialFile.None?
    requires Connect(st, replies).result == Connected
    requires SelectBridge(again.discovery).Some?
    ensures ConnectClick(st, replies, statusOk).catalog == st.catalog
    ensures ConnectClick(st, replies, statusOk).requests == Connect(st, replies).after.requests
    ensures Flash(Connect(st, replies).after, Select, statusOk).result == Faulted
    ensures
      var paired := ConnectClick(st, replies, statusOk);
      paired.credentialFile.Some? && paired.credentialFile == paired.authUser &&
      Connect(paired, again).after.requests ==
        paired.requests + [Discover, GetLights(SelectBridge(again.discovery).value.ip,
                                               paired.credentialFile.value.username)]
  {
  }

  /** Worked example: no stored credential, the bridge answers the pairing
      POST with "link button not pressed"; the connect reports that
      description, nothing is stored, and the window stays disconnected. */
  lemma LinkButtonNotPressed(watchFile: Option<seq<string>>, statusOk: nat -> bool, lights: LightsReply)
    ensures
      var st := Initial(None, watchFile);
      var text := "[{\"error\":" + "{\"type\":101,\"address\":\"/\",\"description\":\"link button not pressed\"}}]";
      var replies := ConnectReplies(
        DiscoveryAnswer(Parsed([BridgeCandidate("bridge1", "192.168.1.50")])),
        PairAnswer(text, Parsed([BridgeError(101, "/", "link button not pressed")]), Malformed),
        true, lights);
      && Connect(st, replies).result == Refused("link button not pressed")
      && Connect(st, replies).after.authUser.None?
      && Connect(st, replies).after.credentialFile.None?
      && Connect(st, replies).after.requests == [Discover, Pair("192.168.1.50", DeviceType)]
      && !ConnectClick(st, replies, statusOk).connected
  {
    var detail := "{\"type\":101,\"address\":\"/\",\"description\":\"link button not pressed\"}}]";
    assert "[{\"error\":" == "[{\"" + "error" + "\":";
    LowercaseErrorIsError("[{\"", "\":" + detail);
    assert "[{\"" + "error" + ("\":" + detail) == "[{\"error\":" + detail;
  }

  /** Worked example: the bridge answers the pairing POST with the username
      "abc123"; it is held and stored, the connect succeeds, and the lights
      are not fetched. */
  lemma PairingIssuesCredential(watchFile: Option<seq<string>>, lights: LightsReply)
    ensures
      var st := Initial(None, watchFile);
      var text := "[{\"success\":{\"username\":\"abc123\"}}]";
      var replies := ConnectReplies(
        DiscoveryAnswer(Parsed([BridgeCandidate("bridge1", "192.168.1.50")])),
        PairAnswer(text, Malformed, Parsed([Credential("abc123")])),
        true, lights);
      && Connect(st, replies).result == Connected
      && Connect(st, replies).after.credentialFile == Some(Credential("abc123"))
      && Connect(st, replies).after.authUser == Some(Credential("abc123"))
      && Connect(st, replies).after.catalog.None?
      && Connect(st, replies).after.bridge == Some(BridgeAddress("192.168.1.50", "bridge1"))
  {
    NoLetterONoError("[{\"success\":{\"username\":\"abc123\"}}]");
  }

  /** Worked example: with "Lamp A" as light "1" and a watch-list of
      "Lamp A" and "Lamp B", the alert sends exactly one "lselect" PUT, for
      light "1", and logs one line, for "Lamp B". */
  lemma PulseSkipsMissingLamp(ip: string, id: string, user: Credential, statusOk: nat -> bool)
    requires statusOk(0)
    ensures
      var st := State(Some(BridgeAddress(ip, id)), Some(user), Some([Light("1", "Lamp A")]),
                      Some(["Lamp A", "Lamp B"]), true, Some(user), Some(["Lamp A", "Lamp B"]), [], []);
      && Flash(st, LongSelect, statusOk).after.requests == [SetAlert(ip, user.username, "1", "lselect")]
      && Flash(st, LongSelect, statusOk).after.log == [SkipMessage("Lamp B")]
      && Flash(st, LongSelect, statusOk).result == Flashed(AllSucceeded)
  {
    var catalog := [Light("1", "Lamp A")];
    var watch := ["Lamp A", "Lamp B"];
    assert FirstNamed(catalog, "Lamp A") == Some(0);
    assert FirstNamed(catalog[1..], "Lamp B") == None;
    assert FirstNamed(catalog, "Lamp B") == None;
    assert watch[..1] == ["Lamp A"] && ["Lamp A"][..0] == [];
    assert MatchedIds(catalog, watch) == ["1"];
    assert SkipLog(catalog, watch) == [SkipMessage("Lamp B")];
  }

  /** A lights catalog that holds a light whose name contains "error" in any
      casing is taken for an error reply: the catalog cannot be read as an
      error list, so the connect throws and nothing is replaced. */
  lemma ErrorNamedLightBreaksConnect(st: State, replies: ConnectReplies, before: string, after: string, lights: seq<Light>)
    requires Consistent(st) && st.authUser.Some?
    requires SelectBridge(replies.discovery).Some?
    requires replies.lights == LightsAnswer(before + "\"name\":\"Terror\"" + after, Malformed, Parsed(lights))
    ensures Connect(st, replies).result == Threw
    ensures Connect(st, replies).after.catalog == st.catalog
    ensures Connect(st, replies).after.watch == st.watch
  {
    var part := "\"name\":\"Terror\"";
    assert part == "\"name\":\"T" + "error" + "\"";
    LowercaseErrorIsError("\"name\":\"T", "\"");
    ErrorInPartMakesErrorReply(before, part, after);
  }

  /** A lights GET answered with a failing status leaves an empty body that
      deserialises to a null catalog; the connect still succeeds, with no
      catalog, so the test alert that follows throws before any PUT when the
      watch-list is not empty. */
  lemma FailedLightsStatusStillConnects(st: State, replies: ConnectReplies, statusOk: nat -> bool)
    requires Consistent(st) && st.authUser.Some?
    requires SelectBridge(replies.discovery).Some?
    requires replies.lights == LightsAnswer("", ParsedNull, ParsedNull)
    requires st.watchFile.Some? && st.watchFile.value != []
    ensures Connect(st, replies).result == Connected
    ensures Connect(st, replies).after.catalog.None?
    ensures ConnectClick(st, replies, statusOk).requests == Connect(st, replies).after.requests
  {
  }

  /** Worked example: the helper exits with code 0 while the window is
      connected, with "Lamp A" as light "1" on the watch-list; the completion
      handler sends the one "lselect" PUT, to light "1". */
  lemma AcceptedGameFlashesLamp(ip: string, id: string, user: Credential, statusOk: nat -> bool)
    requires statusOk(0)
    ensures
      var st := State(Some(BridgeAddress(ip, id)), Some(user), Some([Light("1", "Lamp A")]),
                      Some(["Lamp A"]), true, Some(user), Some(["Lamp A"]), [], []);
      && WorkerCompleted(st, Exited(0), statusOk).requests == [SetAlert(ip, user.username, "1", "lselect")]
      && WorkerCompleted(st, Exited(0), statusOk).log == []
  {
    var catalog := [Light("1", "Lamp A")];
    var watch := ["Lamp A"];
    assert FirstNamed(catalog, "Lamp A") == Some(0);
    assert watch[..0] == [];
    assert MatchedIds(catalog, watch) == ["1"];
    assert SkipLog(catalog, watch) == [];
  }

  /** When the credential file cannot be written after a successful pairing,
      the connect throws but the new credential stays held; the next connect
      in the same process uses it and does not pair again. */
  lemma FailedSaveKeepsCredentialInMemory(st: State, replies: ConnectReplies, statusOk: nat -> bool,
                                          again: ConnectReplies)
    requires Consistent(st) && st.authUser.None? && st.credentialFile.None?
    requires SelectBridge(replies.discovery).Some?
    requires replies.pairing.PairAnswer? && !IsErrorReply(replies.pairing.text)
    requires First(replies.pairing.asSuccesses).Some? && !replies.saveSucceeds
    requires SelectBridge(again.discovery).Some?
    ensures Connect(st, replies).result == Threw
    ensures
      var failed := ConnectClick(st, replies, statusOk);
      && !failed.connected
      && failed.authUser == First(replies.pairing.asSuccesses)
      && failed.credentialFile.None?
      && Connect(failed, again).after.requests ==
           failed.requests + [Discover, GetLights(SelectBridge(again.discovery).value.ip,
                                                  First(replies.pairing.asSuccesses).value.username)]
  {
  }
}
