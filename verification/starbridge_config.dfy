/** The class revision of the Starbridge configs. `StarbridgeConfig` holds a
    server address together with the IP and port derived from it and the
    transport name; its subclasses add the server's private key (server side)
    or its public key (client side).

    This revision deletes every space from the address before splitting it on
    ':', and reports a second field that is not a port as
    `missingPortInformation`, carrying the address as it was given. */
module StarbridgeConfig {
  import opened Wrappers
  import opened Address
  import opened Coding

  datatype ConfigError =
    | MissingPortInformation(address: string)
    | Decoding(error: DecodingError)

  /** The stored properties of a `StarbridgeConfig`. */
  datatype Config = Config(serverAddress: string, serverIP: string, serverPort: int, transportName: string)

  /** The fields of an address once its spaces are gone. */
  function AddressFields(address: string): seq<string> {
    Fields(RemoveSpaces(address))
  }

  /** An address with a second field to read the port from. Reading the
      second field of an address that has none traps. */
  predicate Indexable(address: string) {
    |AddressFields(address)| >= 2
  }

  function EndpointOf(address: string): Option<Endpoint>
    requires Indexable(address)
  {
    DeriveEndpoint(AddressFields(address))
  }

  /** A config whose IP and port are the ones its address names: what every
      initialiser establishes. */
  predicate Consistent(cfg: Config) {
    Indexable(cfg.serverAddress) && EndpointOf(cfg.serverAddress) == Some(Endpoint(cfg.serverIP, cfg.serverPort))
  }

  /** `init(serverAddress:)`. */
  function Init(serverAddress: string): (r: Result<Config, ConfigError>)
    requires Indexable(serverAddress)
    ensures r.Ok? <==> ParseUInt16(AddressFields(serverAddress)[1]).Some?
    ensures r.Ok? ==> Consistent(r.value) && r.value.serverAddress == serverAddress
    ensures r.Ok? ==> r.value.transportName == DefaultTransportName
    ensures r.Ok? ==> r.value.serverIP != [] && Avoids(r.value.serverIP, ':') && Avoids(r.value.serverIP, ' ')
    ensures r.Ok? ==> 0 <= r.value.serverPort <= UInt16Max
    ensures r.Err? ==> r.error == MissingPortInformation(serverAddress)
  {
    SplitKeepsAvoiding(RemoveSpaces(serverAddress), ':', ' ');
    match EndpointOf(serverAddress)
    case None => Err(MissingPortInformation(serverAddress))
    case Some(e) => Ok(Config(serverAddress, e.ip, e.port, DefaultTransportName))
  }

  /** Spaces anywhere in an address are ignored: an address that reads
      `host:port` once its spaces are removed gives that host and port, and
      keeps the address exactly as written. */
  lemma InitOfHostPort(address: string, host: string, port: nat)
    requires host != [] && Avoids(host, ':') && port <= UInt16Max
    requires RemoveSpaces(address) == host + ":" + FormatNat(port)
    ensures Indexable(address)
    ensures Init(address) == Ok(Config(address, host, port, DefaultTransportName))
  {
    EndpointOfAddress(host, port, []);
    assert host + ":" + FormatNat(port) + [] == RemoveSpaces(address);
  }

  /** In particular a space between the colon and the port is accepted. */
  lemma AcceptsSpacedPort(host: string, port: nat)
    requires host != [] && Avoids(host, ':') && Avoids(host, ' ') && port <= UInt16Max
    ensures Indexable(host + ": " + FormatNat(port))
    ensures Init(host + ": " + FormatNat(port)) == Ok(Config(host + ": " + FormatNat(port), host, port, DefaultTransportName))
  {
    var p := FormatNat(port);
    assert Avoids(p, ' ') by {
      forall i | 0 <= i < |p| ensures p[i] != ' ' {
        assert IsDigit(p[i]);
      }
    }
    RemoveSpaceAfterColon(host, p);
    InitOfHostPort(host + ": " + p, host, port);
  }

  /** Addresses that differ only in their spaces derive the same IP and port. */
  lemma InitIgnoresSpaces(a: string, b: string)
    requires Indexable(a) && RemoveSpaces(a) == RemoveSpaces(b)
    ensures Indexable(b)
    ensures Init(a).Ok? <==> Init(b).Ok?
    ensures Init(a).Ok? ==> Init(a).value.serverIP == Init(b).value.serverIP
                            && Init(a).value.serverPort == Init(b).value.serverPort
  {
  }

  // ---------------------------------------------------------------------------
  // Coding the base class
  // ---------------------------------------------------------------------------

  /** A container whose address, if it holds one, has a port field to read. */
  predicate AddressIndexable(c: Container) {
    ServerAddressKey in c && c[ServerAddressKey].Str? ==> Indexable(c[ServerAddressKey].s)
  }

  /** `init(from:)` of the base class: the address, the port derived from
      it, then the transport name. */
  function Decode(c: Container): (r: Result<Config, ConfigError>)
    requires AddressIndexable(c)
    ensures r.Ok? <==>
      (ServerAddressKey in c && c[ServerAddressKey].Str? && EndpointOf(c[ServerAddressKey].s).Some?
       && TransportKey in c && c[TransportKey].Str?)
    ensures r.Ok? ==> Consistent(r.value)
    ensures r.Ok? ==> c[ServerAddressKey] == Str(r.value.serverAddress) && c[TransportKey] == Str(r.value.transportName)
  {
    match DecodeString(c, ServerAddressKey)
    case Err(e) => Err(Decoding(e))
    case Ok(address) =>
      match EndpointOf(address)
      case None => Err(MissingPortInformation(address))
      case Some(endpoint) =>
        match DecodeString(c, TransportKey)
        case Err(e) => Err(Decoding(e))
        case Ok(transport) => Ok(Config(address, endpoint.ip, endpoint.port, transport))
  }

  /** The first problem found is the one reported: a missing address, then a
      bad port, then a missing transport name. */
  lemma DecodeReportsFirstProblem(c: Container)
    requires AddressIndexable(c)
    ensures !(ServerAddressKey in c && c[ServerAddressKey].Str?) ==>
      Decode(c) == Err(Decoding(Missing(c, ServerAddressKey)))
    ensures ServerAddressKey in c && c[ServerAddressKey].Str? && EndpointOf(c[ServerAddressKey].s).None? ==>
      Decode(c) == Err(MissingPortInformation(c[ServerAddressKey].s))
    ensures ServerAddressKey in c && c[ServerAddressKey].Str? && EndpointOf(c[ServerAddressKey].s).Some?
            && !(TransportKey in c && c[TransportKey].Str?) ==>
      Decode(c) == Err(Decoding(Missing(c, TransportKey)))
  {
  }

  /** `encode(to:)` of the base class: only the address and the transport
      name are persisted; the IP and port are derived again on decoding. */
  function Encode(cfg: Config): (c: Container)
    ensures c.Keys == {ServerAddressKey, TransportKey}
  {
    map[ServerAddressKey := Str(cfg.serverAddress), TransportKey := Str(cfg.transportName)]
  }

  /** Encoding and decoding again gives the same config. */
  lemma DecodeEncode(cfg: Config)
    requires Consistent(cfg)
    ensures AddressIndexable(Encode(cfg))
    ensures Decode(Encode(cfg)) == Ok(cfg)
  {
    var c := Encode(cfg);
    assert c[ServerAddressKey] == Str(cfg.serverAddress);
    assert c[TransportKey] == Str(cfg.transportName);
  }

  /** Decoding and encoding again keeps exactly the persisted entries. */
  lemma EncodeDecode(c: Container)
    requires AddressIndexable(c) && Decode(c).Ok?
    ensures Encode(Decode(c).value) == map k | k in c && (k == ServerAddressKey || k == TransportKey) :: c[k]
  {
  }

  // ---------------------------------------------------------------------------
  // The server subclass
  // ---------------------------------------------------------------------------

  datatype ServerConfig = ServerConfig(config: Config, serverPrivateKey: PrivateKey)

  /** `StarbridgeServerConfig.init(serverAddress:serverPrivateKey:)`. */
  function InitServer(serverAddress: string, serverPrivateKey: PrivateKey): (r: Result<ServerConfig, ConfigError>)
    requires Indexable(serverAddress)
    ensures r.Ok? <==> EndpointOf(serverAddress).Some?
    ensures r.Ok? ==> Consistent(r.value.config) && r.value.config.serverAddress == serverAddress
    ensures r.Ok? ==> r.value.serverPrivateKey == serverPrivateKey
    ensures r.Ok? ==> r.value.config.transportName == DefaultTransportName
    ensures r.Err? ==> r.error == MissingPortInformation(serverAddress)
  {
    match Init(serverAddress)
    case Err(e) => Err(e)
    case Ok(cfg) => Ok(ServerConfig(cfg, serverPrivateKey))
  }

  /** The server decoder reads the private key before it splits the address,
      so only a container holding a key must have an address with a port
      field: without one the decoder throws before it gets that far. */
  predicate ServerAddressIndexable(c: Container) {
    ServerPrivateKeyKey in c && c[ServerPrivateKeyKey].Private? ==> AddressIndexable(c)
  }

  /** `StarbridgeServerConfig.init(from:)`: the address, then the private key,
      then the base initialiser. The transport name is not read, so a
      decoded server config always has the default one. */
  function DecodeServer(c: Container): (r: Result<ServerConfig, ConfigError>)
    requires ServerAddressIndexable(c)
    ensures r.Ok? <==>
      (ServerAddressKey in c && c[ServerAddressKey].Str? && ServerPrivateKeyKey in c && c[ServerPrivateKeyKey].Private?
       && EndpointOf(c[ServerAddressKey].s).Some?)
    ensures r.Ok? ==> Consistent(r.value.config)
    ensures r.Ok? ==> c[ServerAddressKey] == Str(r.value.config.serverAddress)
                      && c[ServerPrivateKeyKey] == Private(r.value.serverPrivateKey)
    ensures r.Ok? ==> r.value.config.transportName == DefaultTransportName
  {
    match DecodeString(c, ServerAddressKey)
    case Err(e) => Err(Decoding(e))
    case Ok(address) =>
      match DecodePrivateKey(c, ServerPrivateKeyKey)
      case Err(e) => Err(Decoding(e))
      case Ok(key) => InitServer(address, key)
  }

  /** A missing key is reported before the address is split: whether its
      port is bad, or it has no port field at all. */
  lemma DecodeServerReadsKeyFirst(c: Container)
    requires ServerAddressKey in c && c[ServerAddressKey].Str?
    requires !(ServerPrivateKeyKey in c && c[ServerPrivateKeyKey].Private?)
    ensures DecodeServer(c) == Err(Decoding(Missing(c, ServerPrivateKeyKey)))
  {
  }

  /** `StarbridgeServerConfig.encode(to:)`. */
  function EncodeServer(sc: ServerConfig): (c: Container)
    ensures c.Keys == {ServerPrivateKeyKey, ServerAddressKey, TransportKey}
  {
    map[ServerPrivateKeyKey := Private(sc.serverPrivateKey),
        ServerAddressKey := Str(sc.config.serverAddress),
        TransportKey := Str(sc.config.transportName)]
  }

  /** `StarbridgeServerConfig.init(from data:)`: decode, then initialise
      again from the decoded address and key. */
  function LoadServer(c: Container): (r: Result<ServerConfig, ConfigError>)
    requires ServerAddressIndexable(c)
    ensures r == DecodeServer(c)
  {
    match DecodeServer(c)
    case Err(e) => Err(e)
    case Ok(decoded) => InitServer(decoded.config.serverAddress, decoded.serverPrivateKey)
  }

  /** `StarbridgeServerConfig.==`: the key and the address as written. */
  predicate ServerEqual(a: ServerConfig, b: ServerConfig)
    ensures a == b ==> ServerEqual(a, b)
  {
    a.serverPrivateKey == b.serverPrivateKey && a.config.serverAddress == b.config.serverAddress
  }

  /** The round trip through the persisted form keeps the address and key
      but resets the transport name, which is written but never read back:
      it is the identity exactly on configs with the default transport name,
      and always gives a config equal to the original by `==`. */
  lemma ServerRoundTrip(sc: ServerConfig)
    requires Consistent(sc.config)
    ensures AddressIndexable(EncodeServer(sc))
    ensures DecodeServer(EncodeServer(sc)) == Ok(sc.(config := sc.config.(transportName := DefaultTransportName)))
    ensures DecodeServer(EncodeServer(sc)) == Ok(sc) <==> sc.config.transportName == DefaultTransportName
    ensures ServerEqual(DecodeServer(EncodeServer(sc)).value, sc)
  {
    var c := EncodeServer(sc);
    assert c[ServerAddressKey] == Str(sc.config.serverAddress);
    assert c[ServerPrivateKeyKey] == Private(sc.serverPrivateKey);
  }

  /** On configs made by the initialisers, `==` is structural equality up to
      the transport name: the IP and port follow from the address. */
  lemma ServerEqualMeansSame(a: ServerConfig, b: ServerConfig)
    requires Consistent(a.config) && Consistent(b.config)
    ensures ServerEqual(a, b) <==> a == b.(config := b.config.(transportName := a.config.transportName))
  {
  }

  /** Two addresses that differ only in spaces name the same server, yet the
      configs made from them are not `==`. */
  lemma SpacingSeparatesServers(a: string, b: string, key: PrivateKey)
    requires Indexable(a) && RemoveSpaces(a) == RemoveSpaces(b) && a != b
    requires InitServer(a, key).Ok?
    ensures Indexable(b) && InitServer(b, key).Ok?
    ensures InitServer(a, key).value.config.serverIP == InitServer(b, key).value.config.serverIP
    ensures InitServer(a, key).value.config.serverPort == InitServer(b, key).value.config.serverPort
    ensures !ServerEqual(InitServer(a, key).value, InitServer(b, key).value)
  {
  }

  // ---------------------------------------------------------------------------
  // The client subclass
  // ---------------------------------------------------------------------------

  datatype ClientConfig = ClientConfig(config: Config, serverPublicKey: PublicKey)

  /** `StarbridgeClientConfig.init(serverAddress:serverPublicKey:)`. */
  function InitClient(serverAddress: string, serverPublicKey: PublicKey): (r: Result<ClientConfig, ConfigError>)
    requires Indexable(serverAddress)
    ensures r.Ok? <==> EndpointOf(serverAddress).Some?
    ensures r.Ok? ==> Consistent(r.value.config) && r.value.config.serverAddress == serverAddress
    ensures r.Ok? ==> r.value.serverPublicKey == serverPublicKey
    ensures r.Ok? ==> r.value.config.transportName == DefaultTransportName
    ensures r.Err? ==> r.error == MissingPortInformation(serverAddress)
  {
    match Init(serverAddress)
    case Err(e) => Err(e)
    case Ok(cfg) => Ok(ClientConfig(cfg, serverPublicKey))
  }

  /** As for the server: only a container holding a public key must have an
      address with a port field. */
  predicate ClientAddressIndexable(c: Container) {
    ServerPublicKeyKey in c && c[ServerPublicKeyKey].Public? ==> AddressIndexable(c)
  }

  /** `StarbridgeClientConfig.init(from:)`: the address, then the public key,
      then the base initialiser; the transport name is not read. */
  function DecodeClient(c: Container): (r: Result<ClientConfig, ConfigError>)
    requires ClientAddressIndexable(c)
    ensures r.Ok? <==>
      (ServerAddressKey in c && c[ServerAddressKey].Str? && ServerPublicKeyKey in c && c[ServerPublicKeyKey].Public?
       && EndpointOf(c[ServerAddressKey].s).Some?)
    ensures r.Ok? ==> Consistent(r.value.config)
    ensures r.Ok? ==> c[ServerAddressKey] == Str(r.value.config.serverAddress)
                      && c[ServerPublicKeyKey] == Public(r.value.serverPublicKey)
    ensures r.Ok? ==> r.value.config.transportName == DefaultTransportName
  {
    match DecodeString(c, ServerAddressKey)
    case Err(e) => Err(Decoding(e))
    case Ok(address) =>
      match DecodePublicKey(c, ServerPublicKeyKey)
      case Err(e) => Err(Decoding(e))
      case Ok(key) => InitClient(address, key)
  }

  /** A missing key is reported before the address is split: whether its
      port is bad, or it has no port field at all. */
  lemma DecodeClientReadsKeyFirst(c: Container)
    requires ServerAddressKey in c && c[ServerAddressKey].Str?
    requires !(ServerPublicKeyKey in c && c[ServerPublicKeyKey].Public?)
    ensures DecodeClient(c) == Err(Decoding(Missing(c, ServerPublicKeyKey)))
  {
  }

  /** `StarbridgeClientConfig.encode(to:)`. */
  function EncodeClient(cc: ClientConfig): (c: Container)
    ensures c.Keys == {ServerPublicKeyKey, ServerAddressKey, TransportKey}
  {
    map[ServerPublicKeyKey := Public(cc.serverPublicKey),
        ServerAddressKey := Str(cc.config.serverAddress),
        TransportKey := Str(cc.config.transportName)]
  }

  /** `StarbridgeClientConfig.init(from data:)`: decode, then initialise
      again from the decoded address and key. */
  function LoadClient(c: Container): (r: Result<ClientConfig, ConfigError>)
    requires ClientAddressIndexable(c)
    ensures r == DecodeClient(c)
  {
    match DecodeClient(c)
    case Err(e) => Err(e)
    case Ok(decoded) => InitClient(decoded.config.serverAddress, decoded.serverPublicKey)
  }

  /** `StarbridgeClientConfig.==`: the key and the address as written. */
  predicate ClientEqual(a: ClientConfig, b: ClientConfig)
    ensures a == b ==> ClientEqual(a, b)
  {
    a.serverPublicKey == b.serverPublicKey && a.config.serverAddress == b.config.serverAddress
  }

  /** As for the server: the round trip resets the transport name and keeps
      everything `==` looks at. */
  lemma ClientRoundTrip(cc: ClientConfig)
    requires Consistent(cc.config)
    ensures AddressIndexable(EncodeClient(cc))
    ensures DecodeClient(EncodeClient(cc)) == Ok(cc.(config := cc.config.(transportName := DefaultTransportName)))
    ensures DecodeClient(EncodeClient(cc)) == Ok(cc) <==> cc.config.transportName == DefaultTransportName
    ensures ClientEqual(DecodeClient(EncodeClient(cc)).value, cc)
  {
    var c := EncodeClient(cc);
    assert c[ServerAddressKey] == Str(cc.config.serverAddress);
    assert c[ServerPublicKeyKey] == Public(cc.serverPublicKey);
  }

  lemma ClientEqualMeansSame(a: ClientConfig, b: ClientConfig)
    requires Consistent(a.config) && Consistent(b.config)
    ensures ClientEqual(a, b) <==> a == b.(config := b.config.(transportName := a.config.transportName))
  {
  }

  /** A server config and a client config made from one address (as a new
      config pair is) name the same endpoint. */
  lemma PairAgrees(serverAddress: string, privateKey: PrivateKey, publicKey: PublicKey)
    requires Indexable(serverAddress)
    ensures InitServer(serverAddress, privateKey).Ok? <==> InitClient(serverAddress, publicKey).Ok?
    ensures InitServer(serverAddress, privateKey).Ok? ==>
      InitServer(serverAddress, privateKey).value.config == InitClient(serverAddress, publicKey).value.config
  {
  }
}
