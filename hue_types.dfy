/** Values exchanged between the Hue client of the acceptor window and the
    outside world: the discovery service, the bridge and the two configuration
    files. Every network reply appears here already received; what the client
    does with it is modelled in the other modules. */
module HueTypes {

  datatype Option<T> = None | Some(value: T)

  /** What Json.NET yields when a reply text is deserialised into the type a
      branch asks for: a value, `null` (the empty text a non-success status
      leaves behind), or an exception (a text of some other shape). */
  datatype Parsed<T> = Parsed(value: T) | ParsedNull | Malformed

  /** `Enumerable.First()` applied to a deserialised list: `None` stands for
      the exception it throws on a null or an empty list. */
  function First<T>(list: Parsed<seq<T>>): (r: Option<T>)
    ensures r.Some? <==> list.Parsed? && |list.value| > 0
    ensures r.Some? ==> r.value == list.value[0]
  {
    match list
    case Parsed(items) => if items == [] then None else Some(items[0])
    case _ => None
  }

  /** One entry of the array the discovery service returns. */
  datatype BridgeCandidate = BridgeCandidate(id: string, internalIpAddress: string)

  /** The bridge chosen for the session (`HueBridgeDetails.ip` and `.id`). */
  datatype BridgeAddress = BridgeAddress(ip: string, id: string)

  /** The `success.username` the bridge issues when it pairs with the client. */
  datatype Credential = Credential(username: string)

  /** The `error` object of one entry of a bridge error array. */
  datatype BridgeError = BridgeError(errorType: int, address: string, description: string)

  /** One entry of the lights dictionary, in its enumeration order: the key
      (the bridge's light id) and the `name` of its value. */
  datatype Light = Light(id: string, name: string)

  /** The `devicetype` the pairing request carries. */
  const DeviceType: string := "AghanimsAcceptor"

  /** The alert value a state PUT sets: "lselect" from AlertHueLights,
      "select" from TestHueLights. */
  datatype AlertMode = LongSelect | Select

  function AlertValue(mode: AlertMode): (v: string)
    ensures mode == LongSelect <==> v == "lselect"
    ensures mode == Select <==> v == "select"
  {
    match mode
    case LongSelect => "lselect"
    case Select => "select"
  }

  /** A request the client sends, in the order it sends them. */
  datatype Request =
    | Discover                                       // GET of the discovery service
    | Pair(ip: string, deviceType: string)           // POST https://{ip}/api
    | GetLights(ip: string, username: string)        // GET https://{ip}/api/{username}/lights
    | SetAlert(ip: string, username: string, lightId: string, alert: string)
                                                     // PUT https://{ip}/api/{username}/lights/{lightId}/state

  /** The discovery service's answer: the GET threw, or a body arrived and
      deserialised to a list of candidates (or to null, or threw). */
  datatype DiscoveryReply =
    | DiscoveryUnreachable
    | DiscoveryAnswer(candidates: Parsed<seq<BridgeCandidate>>)

  /** The bridge's answer to the pairing POST. A transport failure and a
      non-success status both throw (`EnsureSuccessStatusCode`). Otherwise the
      body text is kept with what it deserialises to as an error list and as a
      success list; which of the two the client asks for depends on the text. */
  datatype PairReply =
    | PairHttpFailure
    | PairAnswer(text: string, asErrors: Parsed<seq<BridgeError>>, asSuccesses: Parsed<seq<Credential>>)

  /** The bridge's answer to the lights GET. A non-success status is not an
      exception here: the text is then empty. */
  datatype LightsReply =
    | LightsUnreachable
    | LightsAnswer(text: string, asErrors: Parsed<seq<BridgeError>>, asCatalog: Parsed<seq<Light>>)
}
