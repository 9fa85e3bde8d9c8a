/** The acceptor window's Hue client as the source has it: fields that the
    connect flow assigns one after the other, with early returns, and two
    loops per alert. Each method is proved to leave the fields in exactly
    the state the matching function of module HueSession describes. */
module HueClient {
  import opened HueTypes
  import opened ErrorReply
  import opened LightMatching
  import opened AlertFanOut
  import opened Triggers
  import opened HueSession

  class Client {
    var bridge: Option<BridgeAddress>
    var authUser: Option<Credential>
    var catalog: Option<seq<Light>>
    var watch: Option<seq<string>>
    var connected: bool
    var credentialFile: Option<Credential>
    var watchFile: Option<seq<string>>
    var log: seq<string>
    var requests: seq<Request>

    function Snapshot(): State
      reads this
    {
      State(bridge, authUser, catalog, watch, connected, credentialFile, watchFile, log, requests)
    }

    predicate Valid()
      reads this
    {
      Consistent(Snapshot())
    }

    /** A fresh process: the configuration files as found on disk, every
        session field null. */
    constructor (credentialFile: Option<Credential>, watchFile: Option<seq<string>>)
      ensures Valid() && Snapshot() == Initial(credentialFile, watchFile)
    {
      bridge, authUser, catalog, watch, connected := None, None, None, None, false;
      this.credentialFile, this.watchFile := credentialFile, watchFile;
      log, requests := [], [];
    }

    /** ConnectToHueBridge. */
    method ConnectToHueBridge(replies: ConnectReplies) returns (result: ConnectResult)
      requires Valid()
      modifies this
      ensures Valid()
      ensures Snapshot() == Connect(old(Snapshot()), replies).after
      ensures result == Connect(old(Snapshot()), replies).result
    {
      requests := requests + [Discover];
      var chosen := SelectBridge(replies.discovery);
      if chosen.None? {
        return Threw;
      }
      var addr := chosen.value;
      bridge := chosen;
      if credentialFile.Some? {
        authUser := credentialFile;
      }
      if authUser.None? {
        result := Authenticate(addr, replies.pairing, replies.saveSucceeds);
      } else {
        result := LoadLights(addr, authUser.value, replies.lights);
      }
    }

    /** The pairing branch of ConnectToHueBridge, run when no credential is held. */
    method Authenticate(addr: BridgeAddress, reply: PairReply, saveSucceeds: bool) returns (result: ConnectResult)
      requires authUser.None?
      modifies this
      ensures Snapshot() == PairStep(old(Snapshot()), addr, reply, saveSucceeds).after
      ensures result == PairStep(old(Snapshot()), addr, reply, saveSucceeds).result
    {
      requests := requests + [Pair(addr.ip, DeviceType)];
      match reply
      case PairHttpFailure =>
        return Threw;
      case PairAnswer(text, asErrors, asSuccesses) =>
        if IsErrorReply(text) {
          var error := First(asErrors);
          if error.None? {
            return Threw;
          }
          log := log + [error.value.description + PairingAdvice];
          return Refused(error.value.description);
        }
        var success := First(asSuccesses);
        if success.None? {
          return Threw;
        }
        authUser := success;
        if !saveSucceeds {
          return Threw;
        }
        credentialFile := success;
        return Connected;
    }

    /** The lights branch of ConnectToHueBridge, run with the credential held. */
    method LoadLights(addr: BridgeAddress, user: Credential, reply: LightsReply) returns (result: ConnectResult)
      modifies this
      ensures Snapshot() == FetchLightsStep(old(Snapshot()), addr, user, reply).after
      ensures result == FetchLightsStep(old(Snapshot()), addr, user, reply).result
    {
      requests := requests + [GetLights(addr.ip, user.username)];
      match reply
      case LightsUnreachable =>
        return Threw;
      case LightsAnswer(text, asErrors, asCatalog) =>
        if IsErrorReply(text) {
          var error := First(asErrors);
          if error.None? {
            return Threw;
          }
          log := log + [TokenErrorPrefix + error.value.description + TokenErrorAdvice];
          return Refused(error.value.description);
        }
        if asCatalog.Malformed? {
          return Threw;
        }
        catalog := CatalogOf(asCatalog);
        if watchFile.None? {
          return Threw;
        }
        watch := watchFile;
        return Connected;
    }

    /** The body shared by AlertHueLights and TestHueLights. */
    method FlashLights(mode: AlertMode, statusOk: nat -> bool) returns (outcome: FlashOutcome)
      requires Valid()
      modifies this
      ensures Valid()
      ensures Snapshot() == Flash(old(Snapshot()), mode, statusOk).after
      ensures outcome == Flash(old(Snapshot()), mode, statusOk).result
    {
      if watch.None? {
        return Faulted;
      }
      var names := watch.value;
      if names != [] && catalog.None? {
        return Faulted;
      }
      var lights := CatalogOrEmpty(Snapshot());
      var ids, skipped := CollectLightIds(lights, names);
      log := log + skipped;
      if ids == [] {
        return Flashed(AllSucceeded);
      }
      var sent, fanOut := SendAlerts(bridge.value.ip, authUser.value.username, ids, mode, statusOk);
      requests := requests + sent;
      outcome := Flashed(fanOut);
    }

    /** AlertHueLights: the "lselect" alert. */
    method AlertHueLights(statusOk: nat -> bool) returns (outcome: FlashOutcome)
      requires Valid()
      modifies this
      ensures Valid()
      ensures Snapshot() == Flash(old(Snapshot()), LongSelect, statusOk).after
      ensures outcome == Flash(old(Snapshot()), LongSelect, statusOk).result
    {
      outcome := FlashLights(LongSelect, statusOk);
    }

    /** TestHueLights: the "select" alert. */
    method TestHueLights(statusOk: nat -> bool) returns (outcome: FlashOutcome)
      requires Valid()
      modifies this
      ensures Valid()
      ensures Snapshot() == Flash(old(Snapshot()), Select, statusOk).after
      ensures outcome == Flash(old(Snapshot()), Select, statusOk).result
    {
      outcome := FlashLights(Select, statusOk);
    }

    /** toolStripButton1_Click. */
    method OnConnectClick(replies: ConnectReplies, statusOk: nat -> bool)
      requires Valid()
      modifies this
      ensures Valid()
      ensures Snapshot() == ConnectClick(old(Snapshot()), replies, statusOk)
      ensures connected <==> Connect(old(Snapshot()), replies).result == Connected
    {
      var result := ConnectToHueBridge(replies);
      connected := result == Connected;
      if connected {
        var _ := TestHueLights(statusOk);
      }
    }

    /** OnDoWork followed by OnRunWorkerCompleted, for a helper run. */
    method OnRunWorkerCompleted(run: HelperRun, statusOk: nat -> bool)
      requires Valid()
      modifies this
      ensures Valid()
      ensures Snapshot() == WorkerCompleted(old(Snapshot()), run, statusOk)
    {
      var completion := Complete(run);
      if ShouldAlert(completion, connected) {
        var _ := AlertHueLights(statusOk);
      }
    }
  }
}
