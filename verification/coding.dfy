/** What the config types see of Foundation's keyed coding containers: a
    container maps coding-key strings to values, and reading a key either
    gives the value or throws `keyNotFound` / `typeMismatch`. Keys are opaque
    values: only their equality matters here. */
module Coding {
  import opened Wrappers

  datatype PrivateKey = PrivateKey(material: seq<int>)
  datatype PublicKey = PublicKey(material: seq<int>)

  datatype Value =
    | Str(s: string)
    | Private(privateKey: PrivateKey)
    | Public(publicKey: PublicKey)

  type Container = map<string, Value>

  datatype DecodingError = KeyNotFound(key: string) | TypeMismatch(key: string)

  // The coding keys every revision of the configs persists under, and the
  // transport name a config has when none was read.
  const ServerAddressKey: string := "serverAddress"
  const TransportKey: string := "transport"
  const ServerPrivateKeyKey: string := "serverPrivateKey"
  const ServerPublicKeyKey: string := "serverPublicKey"
  const DefaultTransportName: string := "Starbridge"

  /** The error a read of `key` throws when it does not hold what was asked for. */
  function Missing(c: Container, key: string): DecodingError {
    if key in c then TypeMismatch(key) else KeyNotFound(key)
  }

  /** `decode(String.self, forKey:)`. */
  function DecodeString(c: Container, key: string): (r: Result<string, DecodingError>)
    ensures r.Ok? <==> key in c && c[key].Str?
    ensures r.Ok? ==> c[key] == Str(r.value)
  {
    if key in c && c[key].Str? then Ok(c[key].s) else Err(Missing(c, key))
  }

  /** `decode(PrivateKey.self, forKey:)`. */
  function DecodePrivateKey(c: Container, key: string): (r: Result<PrivateKey, DecodingError>)
    ensures r.Ok? <==> key in c && c[key].Private?
    ensures r.Ok? ==> c[key] == Private(r.value)
  {
    if key in c && c[key].Private? then Ok(c[key].privateKey) else Err(Missing(c, key))
  }

  /** `decode(PublicKey.self, forKey:)`. */
  function DecodePublicKey(c: Container, key: string): (r: Result<PublicKey, DecodingError>)
    ensures r.Ok? <==> key in c && c[key].Public?
    ensures r.Ok? ==> c[key] == Public(r.value)
  {
    if key in c && c[key].Public? then Ok(c[key].publicKey) else Err(Missing(c, key))
  }
}
