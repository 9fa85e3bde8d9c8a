# Hue bridge client of the acceptor window

This project models the Philips Hue client inside the acceptor window
(`MainForm.cs`) and proves properties of that model. The client:

- chooses a bridge from the discovery service's list;
- loads a stored credential, or pairs with the bridge when none is held;
- fetches the bridge's lights catalog together with the user's watch-list of
  light names;
- flashes the watched lights: a long alert (`"lselect"`) when the helper
  program reports an accepted game, a single blink (`"select"`) right after a
  successful connect.

Every network reply, file read and file write is an input of the model.
Each reply is modelled as its raw text together with what Json.NET makes of
it (`Parsed` = a value, `null`, or an exception). That is enough to state
the decisions the client takes:

- the `"ERROR"` test on the upper-cased text;
- `First()` on the lists it gets back;
- exact name matching against the catalog;
- stopping the PUT fan-out at the first failing status;
- the trigger rules of the two event handlers.

The model has three layers:

- `HueTypes`, `ErrorReply`, `LightMatching`, `AlertFanOut` and `Triggers`
  hold the pure pieces and the two loops of the alert methods. The two loops
  are methods with loop invariants.
- `HueSession` describes each operation as a function from a session state
  (the static fields, `_hueConnected`, the two configuration files, the log
  and the list of requests sent) to the next state.
- `HueClient.Client` is the class. Its fields are assigned step by step,
  with the source's early returns, and each method is proved to reach exactly
  the state the matching `HueSession` function describes.
  `SessionProperties` proves properties that span several operations, plus
  worked examples.

## Where the code differs from its intended design

The model follows the code. For three behaviours the design describes
something else, and module `IntendedDesign` writes that behaviour out
next to the code's, with lemmas relating the two:

- One failing light PUT stops the fan-out: `EnsureSuccessStatusCode`
  throws, and no later light gets its PUT (`AlertFanOut.FailureStopsLaterPuts`).
  The design calls for a best-effort fan-out in which a failing PUT is logged
  and skipped (`IntendedDesign.SendAlertsBestEffort`). What the code sends is
  always a prefix of that, and equal to it exactly when no PUT before the
  last fails (`IntendedDesign.StoppingFanOutIsPrefixOfBestEffort`).
- The first successful pairing reports "connected" without fetching the
  catalog, so the test alert that follows throws before sending anything
  (`SessionProperties.FirstPairingDefersCatalog`). The design's correction
  fetches the catalog in the same flow (`IntendedDesign.ConnectAndFetch`),
  after which the test alert sends the matched lights' PUTs
  (`IntendedDesign.ImmediateFetchLetsTestAlertFlash`).
- A lights reply counts as an error when its text contains "error" in any
  casing anywhere, so a catalog holding a light named "Terror" makes the
  connect throw (`SessionProperties.ErrorNamedLightBreaksConnect`). A test on
  the reply's shape (`IntendedDesign.FetchLightsByShape`) decides the same
  whenever text and shape agree (`IntendedDesign.ShapeTestAgreesWithTextTest`)
  and connects on that catalog (`IntendedDesign.TerrorCatalogConnectsByShape`).

Three more consequences of the code that its description does not spell out:

- A lights GET with a failing status leaves an empty body, which
  deserialises to a null catalog, and the connect still reports success
  (`SessionProperties.FailedLightsStatusStillConnects`).
- Only exit code 2 counts as cancelled. Any other exit code of the helper
  fires the alert while connected (`Triggers.AlertsExactlyOnUncancelledExit`).
- If the credential file cannot be written after a successful pairing, the
  connect throws, but the new credential stays held in memory. The next
  connect in the same process uses it and does not pair again
  (`SessionProperties.FailedSaveKeepsCredentialInMemory`).

## Model

| member | source | states |
|---|---|---|
| `HueTypes.First` | MainForm.cs:214-215 | `First()` gives the first entry exactly when the deserialised list is non-null and non-empty, and throws otherwise; used at lines 232, 238 and 250 as well |
| `HueTypes.AlertValue` | MainForm.cs:318 | the long alert is exactly the one with body value "lselect", and the test alert exactly the one with "select" (line 346) |
| `ErrorReply.IsErrorReply` | MainForm.cs:230 | the `ToUpper().Contains("ERROR")` test of lines 230 and 248; a reply shorter than five characters is never an error (characterised fully by `ErrorReplyIffMarker`) |
| `ErrorReply.ErrorReplyIffMarker` | MainForm.cs:230 | a reply is classified as an error exactly when five consecutive characters of it spell "error" in some casing |
| `ErrorReply.ClassificationIgnoresCase` | MainForm.cs:248 | upper-casing a reply first does not change its classification |
| `ErrorReply.ErrorInPartMakesErrorReply` | MainForm.cs:248 | any part of a reply that reads as an error makes the whole reply an error, whatever surrounds it |
| `ErrorReply.NoLetterONoError` | MainForm.cs:230 | a reply with no letter O in either case is never classified as an error |
| `ErrorReply.LowercaseErrorIsError` | MainForm.cs:230 | the lowercase key "error" of a bridge error array is enough for the error branch |
| `LightMatching.FirstNamed` | MainForm.cs:306 | finds an entry exactly when some catalog entry has exactly that name, and the entry found is the first such one in enumeration order |
| `LightMatching.MatchedIds` | MainForm.cs:304-308 | what `lightIndexes` holds after the first loop: at most one key per watched name (element by element in `MatchedIdsFollowWatchOrder`) |
| `LightMatching.SkipLog` | MainForm.cs:309-310 | the log lines the first loop writes: at most one per watched name (element by element in `SkipLogNamesUnmatched`) |
| `LightMatching.CollectLightIds` | MainForm.cs:304-311 | the first loop returns the matched ids and the skip log lines of the whole watch-list; their lengths add up to the watch-list's length; every id is the key of an entry whose name is watched |
| `LightMatching.MatchedPlusSkippedIsWatch` | MainForm.cs:305-311 | each watched name contributes exactly one id or exactly one log line, so neither list is longer than the watch-list |
| `LightMatching.MatchedIdsAreWatchedLights` | MainForm.cs:306-308 | every collected id is the key of a catalog entry whose name is on the watch-list |
| `LightMatching.MatchedIdsFollowWatchOrder` | MainForm.cs:332-336 | the k-th collected id is the key of the first entry named by the k-th watched name that has a match, one for one and in watch-list order |
| `LightMatching.SkipLogNamesUnmatched` | MainForm.cs:337-338 | the k-th log line is the "Did not find Light" message for the k-th unmatched watched name, and that name has no entry |
| `LightMatching.MatchedIdsAppend` | MainForm.cs:305-308 | matching a watch-list gives the ids of its front followed by the ids of its back, so a name watched twice gives its id twice |
| `LightMatching.SkipLogAppend` | MainForm.cs:309-310 | the same split property for the skip log |
| `LightMatching.AllFoundGivesOneIdPerName` | MainForm.cs:333-336 | when every watched name is in the catalog nothing is logged and position k holds the first matching key for watched name k |
| `LightMatching.NoneFoundLogsEveryName` | MainForm.cs:333-338 | when no watched name is in the catalog no id is collected and each name is logged once, in order |
| `AlertFanOut.AlertRequests` | MainForm.cs:314-321 | one PUT per id, in list order, to that light's state URI with the session's bridge address and username and the mode's alert value |
| `AlertFanOut.FirstFailure` | MainForm.cs:322 | finds nothing exactly when every status succeeds; otherwise it finds the first failing PUT, before which every status succeeded |
| `AlertFanOut.SentCount` | MainForm.cs:314-324 | how many PUTs go out: all of them when every status succeeds; fewer only when the last one sent failed; every one before the last sent succeeded |
| `AlertFanOut.SentRequests` | MainForm.cs:314-324 | the PUTs that go out: never more than one per id, all of them when every status succeeds, the k-th for the k-th id with the mode's alert value |
| `AlertFanOut.SendAlerts` | MainForm.cs:313-325 | the second loop sends all PUTs when every status succeeds; otherwise it sends exactly the PUTs up to and including the first failure, each for the id at its position |
| `AlertFanOut.FirstFailureIs` | MainForm.cs:350 | a failing status preceded only by successes is the first failure |
| `AlertFanOut.AllSucceedSendsOnePerId` | MainForm.cs:342-352 | with every status a success, exactly one PUT per collected id is sent, in list order |
| `AlertFanOut.FailureStopsLaterPuts` | MainForm.cs:342-351 | a failing status stops the fan-out: ids after the failing one get no PUT |
| `Triggers.Complete` | MainForm.cs:70-72 | the run is cancelled exactly when the helper exits with code 2; it failed exactly when the worker threw; never both |
| `Triggers.ShouldAlert` | MainForm.cs:86-101 | the alert fires exactly on a completion that is neither cancelled nor failed, while connected |
| `Triggers.AlertsExactlyOnUncancelledExit` | MainForm.cs:70-101 | the alert fires exactly when the helper exited with a code other than 2 while connected |
| `HueSession.Initial` | MainForm.cs:23-25 | a new process has no bridge, credential, catalog or watch-list, is disconnected, has logged and sent nothing, and holds the configuration files as found |
| `HueSession.SelectBridge` | MainForm.cs:212-215 | a bridge is chosen exactly when the discovery body is a non-empty list, and it is the first entry's `internalipaddress` and `id` |
| `HueSession.LoadCredential` | MainForm.cs:218-223 | a readable credential file replaces the held credential; an unreadable one keeps the previous value |
| `HueSession.PairStep` | MainForm.cs:226-243 | sends one pairing POST. It connects exactly when the reply is not an error text, has a first success entry, and the save works; it then holds and stores that entry. An error text connects nothing, holds and stores nothing, and logs the first error's description. Catalog and watch-list are untouched. A success entry is held even when the save then fails, and the connect throws with the file unchanged |
| `HueSession.FetchLightsStep` | MainForm.cs:245-258 | sends one GET with the held username. It connects exactly when the reply is not an error text, deserialises, and the watch-list file reads; the catalog is then replaced wholesale and the watch-list loaded. An error text leaves catalog and watch-list unchanged and logs the token error. A readable reply replaces the catalog even when the watch-list read then throws, leaving the watch-list as it was |
| `HueSession.Connect` | MainForm.cs:207-260 | an empty or failed discovery throws with only the discovery sent. With a credential held or stored, no pairing request goes out and the lights are fetched with it. A stored credential is never rewritten, a held one never dropped, and the state invariant is kept |
| `HueSession.Flash` | MainForm.cs:301-327 | throws, changing nothing, on a null watch-list, or on a null catalog with watched names. Otherwise it logs the skip lines and sends the matched ids' PUTs up to the first failure. It changes only the log and the requests, and every request it adds is a state PUT with the mode's alert value |
| `HueSession.ConnectClick` | MainForm.cs:129-163 | a connect that returned true sets the connected flag and is followed by the "select" test alert (lines 156-158); an exception or a refusal leaves the connect's state, disconnected, and sends nothing more |
| `HueSession.WorkerCompleted` | MainForm.cs:82-107 | when the alert rule fires, the "lselect" alert runs (lines 99-101); when it does not, nothing changes |
| `HueClient.Client.constructor` | MainForm.cs:23-25 | the fields start as the initial session state |
| `HueClient.Client.ConnectToHueBridge` | MainForm.cs:207-260 | the step-by-step assignments with early returns reach exactly the state and result of `HueSession.Connect` |
| `HueClient.Client.Authenticate` | MainForm.cs:226-243 | the pairing branch, assigned field by field with its early returns, reaches exactly the state and result of `HueSession.PairStep` |
| `HueClient.Client.LoadLights` | MainForm.cs:245-258 | the lights branch reaches exactly the state and result of `HueSession.FetchLightsStep` |
| `HueClient.Client.FlashLights` | MainForm.cs:301-327 | the two loops reach exactly the state and outcome of `HueSession.Flash` |
| `HueClient.Client.AlertHueLights` | MainForm.cs:301-327 | `HueSession.Flash` with the "lselect" alert |
| `HueClient.Client.TestHueLights` | MainForm.cs:329-355 | `HueSession.Flash` with the "select" alert |
| `HueClient.Client.OnConnectClick` | MainForm.cs:129-163 | sets the connected flag exactly when connect returned true and then runs the test alert: reaches exactly the state of `HueSession.ConnectClick` |
| `HueClient.Client.OnRunWorkerCompleted` | MainForm.cs:50-107 | runs the long alert exactly when `Triggers.ShouldAlert` holds: reaches exactly the state of `HueSession.WorkerCompleted` |
| `SessionProperties.EventKeepsCredential` | MainForm.cs:217-243 | one click or completion never drops a held credential and never rewrites a stored one; while one is held, it sends no pairing request |
| `SessionProperties.CredentialIsNeverRegenerated` | MainForm.cs:217-244 | the same over any run of events: from the moment a credential is held or stored, no pairing request is ever sent |
| `SessionProperties.DisconnectedNeverAlerts` | MainForm.cs:99-101 | a helper completion while disconnected changes nothing |
| `SessionProperties.FirstPairingDefersCatalog` | MainForm.cs:236-243 | a first successful pairing leaves the catalog unfetched and the following test alert sends nothing; the next connect fetches the lights with the stored username and does not pair |
| `SessionProperties.LinkButtonNotPressed` | MainForm.cs:230-235 | for a "link button not pressed" error reply, connect reports that description, holds and stores no credential, and the window stays disconnected |
| `SessionProperties.PairingIssuesCredential` | MainForm.cs:236-241 | for a success reply with username "abc123", that credential is held and stored, connect succeeds, and no catalog is fetched |
| `SessionProperties.PulseSkipsMissingLamp` | MainForm.cs:304-324 | with light "1" named "Lamp A" and a watch-list of "Lamp A" and "Lamp B", one "lselect" PUT goes to light "1" and one line is logged, for "Lamp B" |
| `SessionProperties.ErrorNamedLightBreaksConnect` | MainForm.cs:248-249 | a catalog reply containing a light named "Terror" makes connect throw, leaving the catalog and watch-list unchanged |
| `SessionProperties.AcceptedGameFlashesLamp` | MainForm.cs:70-101 | a helper exiting with code 0 while connected, with "Lamp A" as light "1" on the watch-list, sends exactly the one "lselect" PUT to light "1" |
| `SessionProperties.FailedSaveKeepsCredentialInMemory` | MainForm.cs:236-243 | a failed save after a successful pairing throws and leaves the window disconnected, but the credential stays held; the next connect fetches the lights with it and does not pair |
| `SessionProperties.FailedLightsStatusStillConnects` | MainForm.cs:262-273 | an empty lights body (failing status) still connects, with a null catalog, and the test alert then sends nothing |
| `IntendedDesign.SendAlertsBestEffort` | MainForm.cs:313-325 | the design's fan-out for this loop: every id gets its PUT, and the failing ones are collected in order |
| `IntendedDesign.NoFailedIdsIffAllSucceed` | MainForm.cs:313-325 | the best-effort fan-out reports no failure exactly when every PUT succeeds |
| `IntendedDesign.StoppingFanOutIsPrefixOfBestEffort` | MainForm.cs:313-325 | the code's PUTs are a prefix of the best-effort PUTs, and equal to them exactly when no PUT before the last fails |
| `IntendedDesign.ConnectAndFetch` | MainForm.cs:236-258 | the design's connect: the same as the code's, except that a successful first pairing goes on to the lights branch with the new credential |
| `IntendedDesign.ImmediateFetchLetsTestAlertFlash` | MainForm.cs:236-258 | after a successful first pairing the code's test alert throws, while under the corrected connect the catalog is loaded and the test alert sends the matched lights' PUTs |
| `IntendedDesign.FetchLightsByShape` | MainForm.cs:245-258 | the lights branch with the error test on the reply's shape: refused exactly when the reply deserialises to a non-empty error list; connected exactly when it does not, the catalog deserialises, and the watch-list reads |
| `IntendedDesign.ShapeTestAgreesWithTextTest` | MainForm.cs:248 | where the text test and the shape test agree on a reply, both lights branches give the same state and result |
| `IntendedDesign.TerrorCatalogConnectsByShape` | MainForm.cs:248-249 | a catalog with a light named "Terror" makes the code's lights branch throw, but connects under the shape test with that catalog |

## Left out

- HTTP transport, the discovery URL, `HttpClient`, status codes and async/await (MainForm.cs:262-299). Each reply is an input that has already been received, and each status that steers the flow is part of it. A failing pairing status throws, so it is `PairHttpFailure`. A failing discovery status leaves an empty body, so it is `DiscoveryAnswer(ParsedNull)`. A failing lights status also leaves an empty body, so it is `LightsAnswer("", ParsedNull, ParsedNull)`. The PUT statuses are a function of each PUT's position.
- Json.NET and `XmlSerializer` are library code. Each reply carries the result of the deserialisation its branch asks for, and the two configuration files are state fields that hold their decoded value. The credential file is assumed to read back exactly what was written.
- In the source, a list whose first entry has the other shape (an error entry read as a success, or the reverse) gives an object whose `success` or `error` is null. The model's lists hold only entries of the shape asked for. Null light names and null watched names are not modelled either.
- The two configuration files change only through the client's own writes. Nobody edits or deletes them between events. The `credentialFile` clauses of `EventKeepsCredential` and `CredentialIsNeverRegenerated` rely on this.
- The catalog is a sequence in the dictionary's enumeration order. Distinct keys are not modelled, because no property relies on them.
- `ErrorReply.UpperChar`: upper-cases ASCII letters only; culture-specific upper-casing of other characters is not modelled. No other character upper-cases to E, R or O, so the "ERROR" test decides the same.
- The certificate-validation bypass (MainForm.cs:38) is a global library callback with no logic.
- Launching and waiting for the helper process (MainForm.cs:54-68). Only its exit code, or a failure to start it, is an input.
- UI work: balloons, images, labels, progress reports and button states, and all of MainForm.Designer.cs.
- Log timestamps and layout (MainForm.cs:424-444), and the exception messages and stack traces the click handler writes (MainForm.cs:138-149). The log holds only the lines the client writes itself: skipped light names, and the pairing and token errors.
- Concurrency: AlertHueLights and TestHueLights are started without being awaited. The model runs each to completion at once. An exception inside one is swallowed by its task; the model records it as `Faulted` and the PUT reply bodies they return are dropped.
- The display-only fields of the lights DTO (state, type, model id and the like, MainForm.cs:397-418) and the unused `HueBridgeDetails.userName`.
