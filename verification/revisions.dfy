/** Where the class revision and the struct revisions of the configs part
    ways on the same input. */
module Revisions {
  import opened Wrappers
  import opened Address
  import opened Coding
  import Class = StarbridgeConfig
  import ServerStruct = StarbridgeServerConfig
  import ClientStruct = StarbridgeClientConfig

  /** `host: port` (a space after the colon) is accepted by the class
      revision, which removes spaces, and rejected by both struct revisions,
      which do not. */
  lemma SpacedPortSeparatesRevisions(host: string, port: nat, privateKey: PrivateKey, publicKey: PublicKey)
    requires host != [] && Avoids(host, ':') && Avoids(host, ' ') && port <= UInt16Max
    ensures var address := host + ": " + FormatNat(port);
      && Class.Indexable(address) && ServerStruct.Indexable(address) && ClientStruct.Indexable(address)
      && Class.InitServer(address, privateKey).Ok?
      && Class.InitServer(address, privateKey).value.config.serverPort == port
      && Class.InitClient(address, publicKey).Ok?
      && Class.InitClient(address, publicKey).value.config.serverPort == port
      && ServerStruct.Init(address, privateKey) == Err(ServerStruct.InvalidServerPort(address))
      && ClientStruct.Init(address, publicKey) == Err(ClientStruct.InvalidServerPort(address))
  {
    Class.AcceptsSpacedPort(host, port);
    ServerStruct.RejectsSpacedPort(host, port, privateKey);
    ClientStruct.RejectsSpacedPort(host, port, publicKey);
  }

  /** A persisted server config that holds only an address with a bad port:
      the class revision reads the key first and reports it missing, the
      struct revision derives the port first and reports the port. The class
      revision reports the key whatever the address, even one without a port
      field. */
  lemma ProblemOrderSeparatesRevisions(address: string)
    requires ServerStruct.Indexable(address) && DeriveEndpoint(Fields(address)).None?
    ensures var c := map[ServerAddressKey := Str(address)];
      && Class.ServerAddressIndexable(c) && ServerStruct.AddressIndexable(c)
      && Class.DecodeServer(c) == Err(Class.Decoding(KeyNotFound(ServerPrivateKeyKey)))
      && ServerStruct.Decode(c) == Err(ServerStruct.InvalidServerPort(address))
  {
    var c := map[ServerAddressKey := Str(address)];
    assert ServerPrivateKeyKey !in c;
  }
}
