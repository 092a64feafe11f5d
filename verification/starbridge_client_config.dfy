/** The struct revision of the client config: the server config's
    counterpart, holding the server's public key. It too splits the address
    as written, derives the port before reading the key and reads the
    transport name back; a bad port is `StarbridgeUniverseError.invalidServerPort`. */
module StarbridgeClientConfig {
  import opened Wrappers
  import opened Address
  import opened Coding

  datatype ConfigError =
    | InvalidServerPort(serverAddress: string)
    | Decoding(error: DecodingError)

  datatype ClientConfig = ClientConfig(
    serverAddress: string,
    serverIP: string,
    serverPort: int,
    serverPublicKey: PublicKey,
    transport: string)

  /** An address with a second field to read the port from. */
  predicate Indexable(address: string) {
    |Fields(address)| >= 2
  }

  /** A config whose IP and port are the ones its address names. */
  predicate Consistent(cfg: ClientConfig) {
    Indexable(cfg.serverAddress) && DeriveEndpoint(Fields(cfg.serverAddress)) == Some(Endpoint(cfg.serverIP, cfg.serverPort))
  }

  /** `init(serverAddress:serverPublicKey:)`. */
  function Init(serverAddress: string, serverPublicKey: PublicKey): (r: Result<ClientConfig, ConfigError>)
    requires Indexable(serverAddress)
    ensures r.Ok? <==> ParseUInt16(Fields(serverAddress)[1]).Some?
    ensures r.Ok? ==> Consistent(r.value) && r.value.serverAddress == serverAddress
    ensures r.Ok? ==> r.value.serverPublicKey == serverPublicKey && r.value.transport == DefaultTransportName
    ensures r.Ok? ==> r.value.serverIP != [] && Avoids(r.value.serverIP, ':') && 0 <= r.value.serverPort <= UInt16Max
    ensures r.Err? ==> r.error == InvalidServerPort(serverAddress)
  {
    match DeriveEndpoint(Fields(serverAddress))
    case None => Err(InvalidServerPort(serverAddress))
    case Some(e) => Ok(ClientConfig(serverAddress, e.ip, e.port, serverPublicKey, DefaultTransportName))
  }

  /** `host:port` gives that host and port; later fields are ignored. */
  lemma InitOfHostPort(host: string, port: nat, extra: string, key: PublicKey)
    requires host != [] && Avoids(host, ':') && port <= UInt16Max
    requires extra == [] || extra[0] == ':'
    ensures Indexable(host + ":" + FormatNat(port) + extra)
    ensures Init(host + ":" + FormatNat(port) + extra, key)
         == Ok(ClientConfig(host + ":" + FormatNat(port) + extra, host, port, key, DefaultTransportName))
  {
    EndpointOfAddress(host, port, extra);
  }

  /** Spaces are not removed: a space before the port makes it invalid. */
  lemma RejectsSpacedPort(host: string, port: nat, key: PublicKey)
    requires host != [] && Avoids(host, ':')
    ensures Indexable(host + ": " + FormatNat(port))
    ensures Init(host + ": " + FormatNat(port), key) == Err(InvalidServerPort(host + ": " + FormatNat(port)))
  {
    SpacedPortFields(host, FormatNat(port));
  }

  /** A container whose address, if it holds one, has a port field to read. */
  predicate AddressIndexable(c: Container) {
    ServerAddressKey in c && c[ServerAddressKey].Str? ==> Indexable(c[ServerAddressKey].s)
  }

  /** `init(from:)`: the address, the port derived from it, the public key,
      then the transport name. */
  function Decode(c: Container): (r: Result<ClientConfig, ConfigError>)
    requires AddressIndexable(c)
    ensures r.Ok? <==>
      (ServerAddressKey in c && c[ServerAddressKey].Str? && DeriveEndpoint(Fields(c[ServerAddressKey].s)).Some?
       && ServerPublicKeyKey in c && c[ServerPublicKeyKey].Public?
       && TransportKey in c && c[TransportKey].Str?)
    ensures r.Ok? ==> Consistent(r.value)
    ensures r.Ok? ==> c[ServerAddressKey] == Str(r.value.serverAddress)
                      && c[ServerPublicKeyKey] == Public(r.value.serverPublicKey)
                      && c[TransportKey] == Str(r.value.transport)
  {
    match DecodeString(c, ServerAddressKey)
    case Err(e) => Err(Decoding(e))
    case Ok(address) =>
      match DeriveEndpoint(Fields(address))
      case None => Err(InvalidServerPort(address))
      case Some(endpoint) =>
        match DecodePublicKey(c, ServerPublicKeyKey)
        case Err(e) => Err(Decoding(e))
        case Ok(key) =>
          match DecodeString(c, TransportKey)
          case Err(e) => Err(Decoding(e))
          case Ok(transport) => Ok(ClientConfig(address, endpoint.ip, endpoint.port, key, transport))
  }

  /** A bad port is reported before a missing key or transport name. */
  lemma DecodeChecksPortFirst(c: Container)
    requires AddressIndexable(c)
    requires ServerAddressKey in c && c[ServerAddressKey].Str?
    requires DeriveEndpoint(Fields(c[ServerAddressKey].s)).None?
    ensures Decode(c) == Err(InvalidServerPort(c[ServerAddressKey].s))
  {
  }

  /** The synthesised `encode(to:)`: every coding key, IP and port excluded. */
  function Encode(cfg: ClientConfig): (c: Container)
    ensures c.Keys == {ServerAddressKey, ServerPublicKeyKey, TransportKey}
  {
    map[ServerAddressKey := Str(cfg.serverAddress),
        ServerPublicKeyKey := Public(cfg.serverPublicKey),
        TransportKey := Str(cfg.transport)]
  }

  /** Encoding and decoding again gives the same config, transport included. */
  lemma DecodeEncode(cfg: ClientConfig)
    requires Consistent(cfg)
    ensures AddressIndexable(Encode(cfg))
    ensures Decode(Encode(cfg)) == Ok(cfg)
  {
    var c := Encode(cfg);
    assert c[ServerAddressKey] == Str(cfg.serverAddress);
    assert c[ServerPublicKeyKey] == Public(cfg.serverPublicKey);
    assert c[TransportKey] == Str(cfg.transport);
  }

  /** Decoding and encoding again keeps exactly the persisted entries. */
  lemma EncodeDecode(c: Container)
    requires AddressIndexable(c) && Decode(c).Ok?
    ensures Encode(Decode(c).value)
         == map k | k in c && (k == ServerAddressKey || k == ServerPublicKeyKey || k == TransportKey) :: c[k]
  {
  }

  /** `init?(from data:)`: any decoding error becomes nil. */
  function FromData(c: Container): (r: Option<ClientConfig>)
    requires AddressIndexable(c)
    ensures r.Some? <==> Decode(c).Ok?
    ensures r.Some? ==> Decode(c) == Ok(r.value)
  {
    match Decode(c)
    case Ok(cfg) => Some(cfg)
    case Err(_) => None
  }
}
