/** The struct revision of the server config. Unlike the class revision it
    splits the address as written, without removing spaces; reports a second
    field that is not a port as `invalidServerPort`; derives the port before
    reading the key; and reads the transport name back when decoding. */
module StarbridgeServerConfig {
  import opened Wrappers
  import opened Address
  import opened Coding

  datatype ConfigError =
    | InvalidServerPort(serverAddress: string)
    | Decoding(error: DecodingError)

  datatype ServerConfig = ServerConfig(
    serverAddress: string,
    serverIP: string,
    serverPort: int,
    serverPrivateKey: PrivateKey,
    transport: string)

  /** An address with a second field to read the port from. */
  predicate Indexable(address: string) {
    |Fields(address)| >= 2
  }

  /** A config whose IP and port are the ones its address names. */
  predicate Consistent(cfg: ServerConfig) {
    Indexable(cfg.serverAddress) && DeriveEndpoint(Fields(cfg.serverAddress)) == Some(Endpoint(cfg.serverIP, cfg.serverPort))
  }

  /** `init(serverAddress:serverPrivateKey:)`. */
  function Init(serverAddress: string, serverPrivateKey: PrivateKey): (r: Result<ServerConfig, ConfigError>)
    requires Indexable(serverAddress)
    ensures r.Ok? <==> ParseUInt16(Fields(serverAddress)[1]).Some?
    ensures r.Ok? ==> Consistent(r.value) && r.value.serverAddress == serverAddress
    ensures r.Ok? ==> r.value.serverPrivateKey == serverPrivateKey && r.value.transport == DefaultTransportName
    ensures r.Ok? ==> r.value.serverIP != [] && Avoids(r.value.serverIP, ':') && 0 <= r.value.serverPort <= UInt16Max
    ensures r.Err? ==> r.error == InvalidServerPort(serverAddress)
  {
    match DeriveEndpoint(Fields(serverAddress))
    case None => Err(InvalidServerPort(serverAddress))
    case Some(e) => Ok(ServerConfig(serverAddress, e.ip, e.port, serverPrivateKey, DefaultTransportName))
  }

  /** `host:port` gives that host and port; later fields are ignored. */
  lemma InitOfHostPort(host: string, port: nat, extra: string, key: PrivateKey)
    requires host != [] && Avoids(host, ':') && port <= UInt16Max
    requires extra == [] || extra[0] == ':'
    ensures Indexable(host + ":" + FormatNat(port) + extra)
    ensures Init(host + ":" + FormatNat(port) + extra, key)
         == Ok(ServerConfig(host + ":" + FormatNat(port) + extra, host, port, key, DefaultTransportName))
  {
    EndpointOfAddress(host, port, extra);
  }

  /** Spaces are not removed: a space before the port makes it invalid. */
  lemma RejectsSpacedPort(host: string, port: nat, key: PrivateKey)
    requires host != [] && Avoids(host, ':')
    ensures Indexable(host + ": " + FormatNat(port))
    ensures Init(host + ": " + FormatNat(port), key) == Err(InvalidServerPort(host + ": " + FormatNat(port)))
  {
    SpacedPortFields(host, FormatNat(port));
  }

  /** A container whose address, if it holds one, has a port field to read. */
  predicate AddressIndexable(c: Container) {
    ServerAddressKey in c && c[ServerAddressKey].Str? ==> Indexable(c[ServerAddressKey].s)
  }

  /** `init(from:)`: the address, the port derived from it, the private key,
      then the transport name. */
  function Decode(c: Container): (r: Result<ServerConfig, ConfigError>)
    requires AddressIndexable(c)
    ensures r.Ok? <==>
      (ServerAddressKey in c && c[ServerAddressKey].Str? && DeriveEndpoint(Fields(c[ServerAddressKey].s)).Some?
       && ServerPrivateKeyKey in c && c[ServerPrivateKeyKey].Private?
       && TransportKey in c && c[TransportKey].Str?)
    ensures r.Ok? ==> Consistent(r.value)
    ensures r.Ok? ==> c[ServerAddressKey] == Str(r.value.serverAddress)
                      && c[ServerPrivateKeyKey] == Private(r.value.serverPrivateKey)
                      && c[TransportKey] == Str(r.value.transport)
  {
    match DecodeString(c, ServerAddressKey)
    case Err(e) => Err(Decoding(e))
    case Ok(address) =>
      match DeriveEndpoint(Fields(address))
      case None => Err(InvalidServerPort(address))
      case Some(endpoint) =>
        match DecodePrivateKey(c, ServerPrivateKeyKey)
        case Err(e) => Err(Decoding(e))
        case Ok(key) =>
          match DecodeString(c, TransportKey)
          case Err(e) => Err(Decoding(e))
          case Ok(transport) => Ok(ServerConfig(address, endpoint.ip, endpoint.port, key, transport))
  }

  /** A bad port is reported before a missing key or transport name. */
  lemma DecodeChecksPortFirst(c: Container)
    requires AddressIndexable(c)
    requires ServerAddressKey in c && c[ServerAddressKey].Str?
    requires DeriveEndpoint(Fields(c[ServerAddressKey].s)).None?
    ensures Decode(c) == Err(InvalidServerPort(c[ServerAddressKey].s))
  {
  }

  /** The synthesised `encode(to:)`: every coding key, IP and port excluded. */
  function Encode(cfg: ServerConfig): (c: Container)
    ensures c.Keys == {ServerAddressKey, ServerPrivateKeyKey, TransportKey}
  {
    map[ServerAddressKey := Str(cfg.serverAddress),
        ServerPrivateKeyKey := Private(cfg.serverPrivateKey),
        TransportKey := Str(cfg.transport)]
  }

  /** Encoding and decoding again gives the same config, transport included. */
  lemma DecodeEncode(cfg: ServerConfig)
    requires Consistent(cfg)
    ensures AddressIndexable(Encode(cfg))
    ensures Decode(Encode(cfg)) == Ok(cfg)
  {
    var c := Encode(cfg);
    assert c[ServerAddressKey] == Str(cfg.serverAddress);
    assert c[ServerPrivateKeyKey] == Private(cfg.serverPrivateKey);
    assert c[TransportKey] == Str(cfg.transport);
  }

  /** Decoding and encoding again keeps exactly the persisted entries. */
  lemma EncodeDecode(c: Container)
    requires AddressIndexable(c) && Decode(c).Ok?
    ensures Encode(Decode(c).value)
         == map k | k in c && (k == ServerAddressKey || k == ServerPrivateKeyKey || k == TransportKey) :: c[k]
  {
  }

  /** `init?(from data:)`: any decoding error becomes nil. */
  function FromData(c: Container): (r: Option<ServerConfig>)
    requires AddressIndexable(c)
    ensures r.Some? <==> Decode(c).Ok?
    ensures r.Some? ==> Decode(c) == Ok(r.value)
  {
    match Decode(c)
    case Ok(cfg) => Some(cfg)
    case Err(_) => None
  }
}
