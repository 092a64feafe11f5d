# Starbridge in Dafny: the Starburst tone burst and the config address logic

This project models two parts of Starbridge, a pluggable transport that disguises a connection as an SMTP exchange before the encrypted tunnel starts. The first part is the **Starburst tone burst**. It is a small script interpreter with two primitives:

- `speak` renders a structured text and writes it.
- `listen` reads one byte at a time into a buffer. Whenever the buffer is valid UTF-8, it asks the structured-text matcher for a verdict. It stops at `FAILURE` or `SUCCESS` and throws `maxSizeReached` once the buffer reaches `maxSize` bytes.

`perform` runs one of two fixed SMTP scripts, chosen by the mode:

- the client waits for the banner, says `EHLO`, waits for `250 STARTTLS`, says `STARTTLS` and waits for a go-ahead line;
- the server speaks the other half.

The second part is the **configs**. Each config derives a server IP and port from a `host:port` address string. There are two revisions of the config code, and they differ:

- The class revision (`StarbridgeConfig` and its server and client subclasses):
  - deletes spaces before splitting;
  - reports a bad port as `missingPortInformation`;
  - reads the key before deriving the port;
  - never reads the transport name back in the subclasses.
- The struct revisions (`StarbridgeServerConfig`, `StarbridgeClientConfig`):
  - split the address as written;
  - report `invalidServerPort`;
  - derive the port first;
  - round-trip the transport name.

Modules:

- `Wrappers`: `Option` and `Result`.
- `Utf8`: Foundation's strict UTF-8 decoder (`String(data:encoding: .utf8)`) and the encoder behind `writeString`. The model states that decoding and encoding are inverse both ways, that validity agrees with Table 3-7 of the Unicode Standard, and that UTF-8 is a prefix code.
- `Ghostwriter`: the parts of the Ghostwriter library the tone burst uses. These are `TypedText`, `StructuredText`, rendering, and the `MatchResult` verdict. The matcher itself is a parameter (`Matcher`). A lemma assumes one thing about it, and only when it says so (`AgreesWithLiteral`): on text with no regular-expression parts, the matcher behaves as an anchored literal prefix match (`LiteralMatch`).
- `Starburst`: modes, errors, the connection, `listen` (both as a function and as the source's loop), `speak`, the step interpreter `Run`, and its executable twin `Execute`.
- `StarburstScripts`: the two scripts exactly as written, `perform`, and what happens when the two halves meet.
- `Address`: removing spaces, Swift's `split(separator:)` (empty pieces are dropped), Swift's `UInt16(String)`, and deriving the endpoint.
- `Coding`: a keyed container as the Codable coders see it, and the coding keys.
- `StarbridgeConfig`: the class revision.
- `StarbridgeServerConfig` and `StarbridgeClientConfig`: the struct revisions.
- `Revisions`: inputs on which the two revisions part ways.

A connection is modelled as four things: its remaining input bytes, whether the peer has closed its side, the text written so far, and how many more writes will succeed. The write after those fails, so any speak of a script can be the one that fails. A one-byte read has three outcomes:

- it takes the next byte;
- it throws (`ReadError`) when there is no input left and the peer has closed;
- it waits forever (`Stalled`) when there is no input left and the peer is still open.

Inside the ten-second `Timeout` of a listen step, a read that would wait forever ends the step with `TimedOut`.

Four behaviours of the source are worth noting:

- Only the listens run inside a `Timeout`. The speaks do not.
- A listen that ends in `FAILURE` does not stop the script. Its verdict is discarded (`let _ =`) and the next step runs (`Starburst.FailureVerdictContinues`, `StarburstScripts.ClientCarriesOnAfterMisreading`).
- Only a thrown error stops the script: once a step throws, no later step runs (`Starburst.RunAppend`, `Starburst.FaultStopsScript`).
- `unimplemented` and the other `StarburstError` cases besides `writeFailed` and `maxSizeReached` are declared but never thrown (`Starburst.RunFaults`).

## Model

| member | source | states |
|---|---|---|
| `Starburst.ModeFromRawValue` | Sources/Starbridge/Starburst.swift:14-19 | a stored mode decodes only from its own raw value |
| `Starburst.ModeRawValueRoundTrip` | Sources/Starbridge/Starburst.swift:14-19 | each mode decodes back from its raw value |
| `Starburst.Listening` | Sources/Starbridge/Starburst.swift:85-110 | the listen loop from any buffer: it never reads past its input, reads nothing once the buffer is full, and never lets the buffer grow past `maxSize` |
| `Starburst.ListenOn` | Sources/Starbridge/Starburst.swift:83-113 | a listen on a connection's input reads no more bytes than the input holds or than `maxSize` allows |
| `Starburst.ListenOutcome` | Sources/Starbridge/Starburst.swift:83-113 | listen reads at most `maxSize` bytes and never past its input. It returns a verdict exactly when some prefix is valid UTF-8 and gets a non-`SHORT` verdict; that verdict is the one for the first such prefix. It throws `maxSizeReached` exactly when `maxSize` bytes give none. Otherwise it ends because the input ran out: a read error if the peer closed, a wait if not |
| `Starburst.ListeningFacts` | Sources/Starbridge/Starburst.swift:85-110 | the same facts for the loop started from any buffer, stated in terms of prefixes of buffer plus rest |
| `Starburst.Listen` | Sources/Starbridge/Starburst.swift:83-113 | the byte-at-a-time loop, with its `continue` on invalid UTF-8 and on `SHORT`, returns what `ListenOutcome` describes and leaves the unread input on the connection |
| `Starburst.ListenStopsAt` | Sources/Starbridge/Starburst.swift:98-108 | if a prefix within the budget is the first with a final verdict, listen returns that verdict having read exactly that prefix |
| `Starburst.VerdictOnAsciiPrefix` | Sources/Starbridge/Starburst.swift:88-98 | on input that starts with ASCII text, the matcher is shown that text's prefixes, one character per byte |
| `Starburst.ListenHearsLiteral` | Sources/Starbridge/Starburst.swift:83-113 | with a literal matcher, a listen fed its text's bytes succeeds after exactly those bytes if they fit in the budget. Every earlier prefix is mid-character or a strict prefix |
| `Starburst.ListenSuccessMeansLiteral` | Sources/Starbridge/Starburst.swift:98-108 | with a literal matcher, `SUCCESS` means the bytes read are exactly the encoding of the text |
| `Starburst.Speak` | Sources/Starbridge/Starburst.swift:115-127 | speak succeeds exactly when the connection still accepts a write, and uses up one write. It then appends the rendered text to the output and leaves the input alone. A failed write is always `writeFailed` |
| `Starburst.SpeakPutsTextOnWire` | Sources/Starbridge/Starburst.swift:119-120 | on the wire, speak appends exactly the UTF-8 bytes of the rendered text, and those bytes decode back to it |
| `Starburst.WithTimeout` | Sources/Starbridge/Starburst.swift:131-134 | a timer cuts off only a read that would wait forever, turning it into `TimedOut`. Any other result, success or fault, passes through unchanged, and an untimed step is never changed |
| `Starburst.Run` | Sources/Starbridge/Starburst.swift:129-166 | the script interpreter: it hears at most one verdict per listen step, never closes or reopens the peer's side, and never gains writes |
| `Starburst.RunAppend` | Sources/Starbridge/Starburst.swift:129-166 | the steps are awaited in sequence: running two scripts back to back is running the first, stopping there if it faulted, and otherwise running the second on the connection the first left, with both lists of verdicts in order |
| `Starburst.FaultStopsScript` | Sources/Starbridge/Starburst.swift:129-166 | a thrown error ends the script: no step after the faulting one runs, so nothing more is read or written |
| `Starburst.RunWritesSpokenText` | Sources/Starbridge/Starburst.swift:129-166 | a completed script wrote exactly the concatenation of its speak steps' texts, in order |
| `Starburst.RunHearsEveryListen` | Sources/Starbridge/Starburst.swift:131-146 | a completed script heard one verdict per listen step |
| `Starburst.RunConsumption` | Sources/Starbridge/Starburst.swift:129-166 | a script only reads forward through its input and takes no more bytes than its listens' budgets sum to |
| `Starburst.RunIgnoresVerdicts` | Sources/Starbridge/Starburst.swift:131-146 | verdicts are discarded. Two matchers that agree only on when to keep reading give the same result, output and remaining input |
| `Starburst.FailureVerdictContinues` | Sources/Starbridge/Starburst.swift:137-142 | a listen that ends in `FAILURE` lets the script go on with the next step |
| `Starburst.LaterWriteFails` | Sources/Starbridge/Starburst.swift:115-127 | a write can fail partway through a script: after one successful speak the next throws `writeFailed`, with the first line left on the wire |
| `Starburst.TimedRunsNeverStall` | Sources/Starbridge/Starburst.swift:131-146 | when every listen is timed, no listen of the script is left waiting forever (writes never wait in this model; see `Starburst.Speak` under Left out) |
| `Starburst.RunFaults` | Sources/Starbridge/Starburst.swift:170-180 | a script fails only with `writeFailed`, `maxSizeReached`, a read error, a wait or a timeout |
| `Starburst.Execute` | Sources/Starbridge/Starburst.swift:129-166 | awaiting the steps one after another, as the handlers do, gives the interpreter's result and connection |
| `StarburstScripts.ScriptFor` | Sources/Starbridge/Starburst.swift:71-81 | each mode gets a five-step script; the client's starts by listening, the server's by speaking |
| `StarburstScripts.SpokenLines` | Sources/Starbridge/Starburst.swift:136-165 | the single-line speak steps render to their text followed by CRLF |
| `StarburstScripts.WelcomeStartsContinued` | Sources/Starbridge/Starburst.swift:159 | the server's welcome starts with `250-`, a continued reply line |
| `StarburstScripts.ScriptsInterlock` | Sources/Starbridge/Starburst.swift:129-166 | at each of the five positions one side listens while the other speaks. Client listens take up to 255 bytes and server listens up to 253. Exactly the listens are timed |
| `StarburstScripts.ScriptTexts` | Sources/Starbridge/Starburst.swift:129-166 | the client says EHLO then STARTTLS; the server says banner, welcome, go-ahead. There are 3 and 2 listens, with budgets of 765 and 506 bytes |
| `StarburstScripts.Perform` | Sources/Starbridge/Starburst.swift:71-81 | perform runs the mode's script. Once complete it has written that side's half of the conversation. It reads forward, within 765 or 506 bytes. It fails only by a write failure, a full buffer, a closed peer or a timeout, and no listen waits forever |
| `StarburstScripts.ServerHearsStartTls` | Sources/Starbridge/Starburst.swift:142-162 | the server's STARTTLS listen succeeds on the client's STARTTLS line after exactly its 10 bytes |
| `StarburstScripts.OfferVerdicts` | Sources/Starbridge/Starburst.swift:139 | against `250 STARTTLS`, the prefixes `2`, `25` and `250` are `SHORT` and `250-` is `FAILURE` |
| `StarburstScripts.ClientMisreadsWelcome` | Sources/Starbridge/Starburst.swift:137-159 | the client's listen for `250 STARTTLS`, shown the server's welcome, returns `FAILURE` after 4 bytes |
| `StarburstScripts.ClientCarriesOnAfterMisreading` | Sources/Starbridge/Starburst.swift:137-142 | after that `FAILURE` the client goes on to say STARTTLS with the rest of the welcome unread |
| `Utf8.EncodeChar` | Sources/Starbridge/Starburst.swift:120 | a character takes one to four bytes, one exactly for ASCII, and every byte after the first is a continuation byte |
| `Utf8.Encode` | Sources/Starbridge/Starburst.swift:120 | the bytes `writeString` puts on the wire: at least one per character, so non-empty text never writes nothing |
| `Utf8.DecodeFirst` | Sources/Starbridge/Starburst.swift:92 | a decoded first character takes one to four bytes of the buffer |
| `Utf8.Decode` | Sources/Starbridge/Starburst.swift:92 | the strict decode of a whole buffer: never more characters than bytes, and non-empty for a non-empty buffer |
| `Utf8.IsValid` | Sources/Starbridge/Starburst.swift:92-96 | a valid buffer starts with a whole character and continues with valid text |
| `Utf8.EncodeAppend` | Sources/Starbridge/Starburst.swift:120 | writing two strings puts the bytes of each, in order |
| `Utf8.DecodeFirstEncodeChar` | Sources/Starbridge/Starburst.swift:92 | the decoder reads back exactly the character the encoder wrote, whatever follows |
| `Utf8.DecodeEncode` | Sources/Starbridge/Starburst.swift:92 | encoded text always decodes, to the same text |
| `Utf8.EncodeCharDecodeFirst` | Sources/Starbridge/Starburst.swift:92 | a first character the decoder accepts re-encodes to the bytes it came from |
| `Utf8.EncodeDecode` | Sources/Starbridge/Starburst.swift:92 | a valid buffer re-encodes to itself |
| `Utf8.DecodeFirstMatchesTable` | Sources/Starbridge/Starburst.swift:92 | the decoder accepts a first character exactly where Table 3-7 of the Unicode Standard has a well-formed sequence, with the same length |
| `Utf8.ValidIffWellFormed` | Sources/Starbridge/Starburst.swift:92 | a buffer is valid text exactly when it is a series of Table 3-7 sequences |
| `Utf8.EncodeInjective` | Sources/Starbridge/Starburst.swift:120 | different texts put different bytes on the wire |
| `Utf8.EncodePrefix` | Sources/Starbridge/Starburst.swift:92-98 | UTF-8 is a prefix code: when one encoding begins another, the first text begins the second |
| `Utf8.PrefixOfEncoding` | Sources/Starbridge/Starburst.swift:92-96 | any cut of a text's bytes is either invalid (mid-character) or the bytes of a prefix of the text |
| `Utf8.AsciiEncoding` | Sources/Starbridge/Starburst.swift:120 | ASCII text takes one byte per character, so every cut of its bytes is the bytes of a prefix |
| `Ghostwriter.RenderPartsAppend` | Sources/Starbridge/Starburst.swift:119 | rendering works part by part |
| `Ghostwriter.Render` | Sources/Starbridge/Starburst.swift:119 | the `.string` of a literal text: its parts' strings in order, CRLF for a newline part. It has no contract of its own; `RenderPartsAppend`, `RenderEndsLine` and `StarburstScripts.SpokenLines` state its behaviour |
| `Ghostwriter.RenderEndsLine` | Sources/Starbridge/Starburst.swift:119 | a text whose last part is a newline renders to a line ending in CRLF |
| `Ghostwriter.LiteralMatch` | Sources/Starbridge/Starburst.swift:98 | the literal stand-in for `match(string:)`: a success carries no captures (`LiteralVerdicts` gives all three verdicts) |
| `Ghostwriter.LiteralMatcher` | Sources/Starbridge/Starburst.swift:98 | a matcher that meets the literal assumption on every literal text exists |
| `Ghostwriter.LiteralVerdicts` | Sources/Starbridge/Starburst.swift:98-109 | literal matching: `SUCCESS` exactly on the text, `SHORT` exactly on its strict prefixes, `FAILURE` on everything else |
| `Ghostwriter.LiteralFailureIsFinal` | Sources/Starbridge/Starburst.swift:101-102 | a `FAILURE` stays a failure whatever is read next |
| `Ghostwriter.LiteralShortCompletes` | Sources/Starbridge/Starburst.swift:104-105 | a `SHORT` can always be completed to `SUCCESS` |
| `Ghostwriter.RenderedTextMatches` | Sources/Starbridge/Starburst.swift:98 | the rendering succeeds, and each strict prefix of it is `SHORT` |
| `Ghostwriter.AlteredCharacterFails` | Sources/Starbridge/Starburst.swift:98 | changing one character of the text makes it fail |
| `Address.RemoveSpaces` | Sources/Starbridge/StarbridgeConfig.swift:27 | the result is no longer than the input and has no spaces |
| `Address.RemoveSpacesAppend` | Sources/Starbridge/StarbridgeConfig.swift:27 | removing spaces works piece by piece |
| `Address.RemoveSpacesKeeps` | Sources/Starbridge/StarbridgeConfig.swift:27 | text without spaces is unchanged |
| `Address.RemoveSpaceAfterColon` | Sources/Starbridge/StarbridgeConfig.swift:27 | `host: port` loses exactly its one space |
| `Address.Split` | Sources/Starbridge/StarbridgeServerConfig.swift:26 | pieces are non-empty and hold no separator |
| `Address.SplitKeepsText` | Sources/Starbridge/StarbridgeServerConfig.swift:26 | the pieces, run together, are the input without its separators |
| `Address.SplitAround` | Sources/Starbridge/StarbridgeServerConfig.swift:26 | splitting around a separator splits each side on its own, so repeated and edge separators add no pieces |
| `Address.SplitJoin` | Sources/Starbridge/StarbridgeServerConfig.swift:26 | joining non-empty separator-free pieces and splitting gives them back |
| `Address.SplitKeepsAvoiding` | Sources/Starbridge/StarbridgeConfig.swift:27-28 | a character the input lacks is lacking from every piece, so a stripped address gives a space-free IP |
| `Address.ParseUInt16` | Sources/Starbridge/StarbridgeServerConfig.swift:28 | exactly the numerals are accepted. Every digit string whose value is at most 65535 parses to that value, leading zeros included. An accepted string is an optional `+` or `-` and then at least one ASCII digit; the result is the value the digits spell, 0 behind a `-` |
| `Address.ParseFormat` | Sources/Starbridge/StarbridgeServerConfig.swift:28 | every port reads back from its decimal spelling |
| `Address.ParsePlus` | Sources/Starbridge/StarbridgeServerConfig.swift:28 | a leading `+` changes nothing |
| `Address.ParseMinus` | Sources/Starbridge/StarbridgeServerConfig.swift:28 | a leading `-` is accepted only before zero |
| `Address.ParseRejectsOverflow` | Sources/Starbridge/StarbridgeServerConfig.swift:28 | values above 65535 never parse |
| `Address.DeriveEndpoint` | Sources/Starbridge/StarbridgeServerConfig.swift:26-34 | an endpoint exists exactly when the second field parses as a `UInt16`; its IP is the first field and its port the parsed value |
| `Address.EndpointOfAddress` | Sources/Starbridge/StarbridgeServerConfig.swift:26-34 | `host:port`, followed by any further fields, derives that host and port |
| `Address.SpacedPortFields` | Sources/Starbridge/StarbridgeServerConfig.swift:26-28 | without stripping, `host: port` keeps the space in the port field, which does not parse |
| `Coding.DecodeString` | Sources/Starbridge/StarbridgeConfig.swift:41 | `decode(String.self, forKey:)` succeeds exactly when the key holds a string, and returns that string |
| `Coding.DecodePrivateKey` | Sources/Starbridge/StarbridgeConfig.swift:91 | `decode(PrivateKey.self, forKey:)` succeeds exactly when the key holds a private key, and returns it |
| `Coding.DecodePublicKey` | Sources/Starbridge/StarbridgeConfig.swift:159 | `decode(PublicKey.self, forKey:)` succeeds exactly when the key holds a public key, and returns it |
| `StarbridgeConfig.Init` | Sources/Starbridge/StarbridgeConfig.swift:23-36 | succeeds exactly when the stripped second field parses. It keeps the address as given, with the default transport and a space-free, colon-free IP. It fails only with `missingPortInformation(address)` |
| `StarbridgeConfig.InitOfHostPort` | Sources/Starbridge/StarbridgeConfig.swift:23-36 | any address that reads `host:port` once stripped gives that host and port |
| `StarbridgeConfig.AcceptsSpacedPort` | Sources/Starbridge/StarbridgeConfig.swift:27-29 | `host: port` is accepted |
| `StarbridgeConfig.InitIgnoresSpaces` | Sources/Starbridge/StarbridgeConfig.swift:27-35 | addresses equal up to spaces derive the same IP and port |
| `StarbridgeConfig.Decode` | Sources/Starbridge/StarbridgeConfig.swift:38-54 | decoding succeeds exactly when address, port and transport are all present and valid. The result is consistent and holds what was stored |
| `StarbridgeConfig.DecodeReportsFirstProblem` | Sources/Starbridge/StarbridgeConfig.swift:38-54 | a missing address is reported first, then a bad port, then a missing transport |
| `StarbridgeConfig.Encode` | Sources/Starbridge/StarbridgeConfig.swift:56-61 | only the address and the transport are persisted |
| `StarbridgeConfig.DecodeEncode` | Sources/Starbridge/StarbridgeConfig.swift:38-61 | encoding then decoding a consistent config gives it back |
| `StarbridgeConfig.EncodeDecode` | Sources/Starbridge/StarbridgeConfig.swift:38-61 | decoding then encoding keeps exactly the persisted entries |
| `StarbridgeConfig.InitServer` | Sources/Starbridge/StarbridgeConfig.swift:81-85 | the server config holds the key and the base config, and fails exactly as the base initialiser does |
| `StarbridgeConfig.DecodeServer` | Sources/Starbridge/StarbridgeConfig.swift:87-93 | decoding needs the address, the private key and a valid port. It splits the address only once the key is read, so an address without a port field is accepted as input when the key is missing. It does not need or read the transport, which is always the default afterwards |
| `StarbridgeConfig.DecodeServerReadsKeyFirst` | Sources/Starbridge/StarbridgeConfig.swift:87-93 | a missing key is reported whatever the address holds, even when its port is bad or missing |
| `StarbridgeConfig.EncodeServer` | Sources/Starbridge/StarbridgeConfig.swift:109-115 | key, address and transport are persisted |
| `StarbridgeConfig.LoadServer` | Sources/Starbridge/StarbridgeConfig.swift:95-100 | decoding and then initialising again from the decoded address and key changes nothing |
| `StarbridgeConfig.ServerEqual` | Sources/Starbridge/StarbridgeConfig.swift:66-69 | `==` on server configs compares the private key and the address as written, and is reflexive (`ServerEqualMeansSame` relates it to structural equality) |
| `StarbridgeConfig.ServerRoundTrip` | Sources/Starbridge/StarbridgeConfig.swift:87-115 | the round trip resets the transport name to the default. It is the identity exactly when the name already is the default, and always gives a config `==` to the original |
| `StarbridgeConfig.ServerEqualMeansSame` | Sources/Starbridge/StarbridgeConfig.swift:66-69 | on consistent configs, `==` is equality of everything but the transport name |
| `StarbridgeConfig.SpacingSeparatesServers` | Sources/Starbridge/StarbridgeConfig.swift:66-69 | addresses that differ only in spaces name the same endpoint, yet give configs that are not `==` |
| `StarbridgeConfig.InitClient` | Sources/Starbridge/StarbridgeConfig.swift:135-139 | as `InitServer`, with the public key |
| `StarbridgeConfig.DecodeClient` | Sources/Starbridge/StarbridgeConfig.swift:155-161 | as `DecodeServer`, with the public key, which is also read before the address is split |
| `StarbridgeConfig.DecodeClientReadsKeyFirst` | Sources/Starbridge/StarbridgeConfig.swift:155-161 | a missing key is reported whatever the address holds, even when its port is bad or missing |
| `StarbridgeConfig.EncodeClient` | Sources/Starbridge/StarbridgeConfig.swift:163-169 | key, address and transport are persisted |
| `StarbridgeConfig.LoadClient` | Sources/Starbridge/StarbridgeConfig.swift:141-146 | re-initialising after decoding changes nothing |
| `StarbridgeConfig.ClientEqual` | Sources/Starbridge/StarbridgeConfig.swift:120-123 | `==` on client configs compares the public key and the address as written, and is reflexive |
| `StarbridgeConfig.ClientRoundTrip` | Sources/Starbridge/StarbridgeConfig.swift:155-169 | the round trip resets the transport name and keeps what `==` compares |
| `StarbridgeConfig.ClientEqualMeansSame` | Sources/Starbridge/StarbridgeConfig.swift:120-123 | on consistent configs, `==` is equality of everything but the transport name |
| `StarbridgeConfig.PairAgrees` | Sources/Starbridge/StarbridgeConfig.swift:172-181 | a server and a client config made from one address both succeed or both fail, and name the same endpoint |
| `StarbridgeServerConfig.Init` | Sources/Starbridge/StarbridgeServerConfig.swift:22-36 | succeeds exactly when the unstripped second field parses. It keeps the address, key and default transport. It fails only with `invalidServerPort(address)` |
| `StarbridgeServerConfig.InitOfHostPort` | Sources/Starbridge/StarbridgeServerConfig.swift:22-36 | `host:port`, with any further fields, gives that host and port |
| `StarbridgeServerConfig.RejectsSpacedPort` | Sources/Starbridge/StarbridgeServerConfig.swift:26-31 | `host: port` is rejected with `invalidServerPort` |
| `StarbridgeServerConfig.Decode` | Sources/Starbridge/StarbridgeServerConfig.swift:71-88 | decoding succeeds exactly when address, port, key and transport are all present and valid, and the result holds what was stored |
| `StarbridgeServerConfig.DecodeChecksPortFirst` | Sources/Starbridge/StarbridgeServerConfig.swift:71-81 | a bad port is reported before a missing key or transport |
| `StarbridgeServerConfig.Encode` | Sources/Starbridge/StarbridgeServerConfig.swift:16-20 | exactly the three coding keys are persisted |
| `StarbridgeServerConfig.DecodeEncode` | Sources/Starbridge/StarbridgeServerConfig.swift:71-88 | encoding then decoding gives the config back, transport included |
| `StarbridgeServerConfig.EncodeDecode` | Sources/Starbridge/StarbridgeServerConfig.swift:71-88 | decoding then encoding keeps exactly the persisted entries |
| `StarbridgeServerConfig.FromData` | Sources/Starbridge/StarbridgeServerConfig.swift:55-69 | the failable initialiser gives a config exactly when decoding does, and the same one |
| `StarbridgeClientConfig.Init` | Sources/Starbridge/StarbridgeClientConfig.swift:31-46 | as the server struct's, with the public key |
| `StarbridgeClientConfig.InitOfHostPort` | Sources/Starbridge/StarbridgeClientConfig.swift:31-46 | `host:port`, with any further fields, gives that host and port |
| `StarbridgeClientConfig.RejectsSpacedPort` | Sources/Starbridge/StarbridgeClientConfig.swift:35-41 | `host: port` is rejected with `invalidServerPort` |
| `StarbridgeClientConfig.Decode` | Sources/Starbridge/StarbridgeClientConfig.swift:84-101 | decoding succeeds exactly when address, port, key and transport are all present and valid |
| `StarbridgeClientConfig.DecodeChecksPortFirst` | Sources/Starbridge/StarbridgeClientConfig.swift:84-94 | a bad port is reported before a missing key or transport |
| `StarbridgeClientConfig.Encode` | Sources/Starbridge/StarbridgeClientConfig.swift:25-29 | exactly the three coding keys are persisted |
| `StarbridgeClientConfig.DecodeEncode` | Sources/Starbridge/StarbridgeClientConfig.swift:84-101 | encoding then decoding gives the config back, transport included |
| `StarbridgeClientConfig.EncodeDecode` | Sources/Starbridge/StarbridgeClientConfig.swift:84-101 | decoding then encoding keeps exactly the persisted entries |
| `StarbridgeClientConfig.FromData` | Sources/Starbridge/StarbridgeClientConfig.swift:68-82 | the failable initialiser gives a config exactly when decoding does |
| `Revisions.SpacedPortSeparatesRevisions` | Sources/Starbridge/StarbridgeConfig.swift:27-32 | `host: port` is accepted by the class revision and rejected by both struct revisions |
| `Revisions.ProblemOrderSeparatesRevisions` | Sources/Starbridge/StarbridgeConfig.swift:87-93 | for a stored address with a bad port and no key, the class revision reports the missing key and the struct revision reports the port |

## Left out

- The Ghostwriter library is not part of this model. The matcher is a parameter of every listen. The lemmas that depend on its behaviour assume it works as an anchored literal prefix match on texts without regular-expression parts (`AgreesWithLiteral`). Regular expressions, and the captures they return, are not modelled.
- Time is not modelled. `Timeout(Duration.seconds(10)).wait` becomes `WithTimeout`: a read that would wait forever ends the step as `TimedOut`. A slow peer that would beat or miss the ten seconds is not represented. The error that `Timeout` throws comes from a library that is not part of this model, so it is a fault of its own (`TimedOut`) and not `StarburstError.timeout`.
- `Starburst.Speak`: a write never waits. It succeeds or fails at once, depending only on how many writes the connection has left. Which write fails is fixed by that count in advance, not by anything the peer does during the run. In the source, `writeString` is awaited outside any `Timeout`, so a peer that stops reading could hold a speak forever. The claims that no step waits forever (`Starburst.TimedRunsNeverStall`, `StarburstScripts.Perform`) are therefore about listens only.
- Async/await, task cancellation and concurrency are not modelled. The connection is a value, and a script's steps run one after another.
- `print` calls and the error messages of `StarbridgeError.description` are not modelled.
- Swift's `String` is modelled as a sequence of Unicode scalars. Grapheme clustering and normalisation are not modelled, and neither is any special handling of a byte-order mark by Foundation's decoder.
- Indexing the second field of an address with fewer than two fields traps in the source. Every initialiser requires at least two fields (`Indexable`). So does every decoder at the point where it splits the address: the base-class and struct decoders always split it (`AddressIndexable`). The class revision's subclass decoders split it only once the key has been read (`ServerAddressIndexable`, `ClientAddressIndexable`), so a container without the key is accepted whatever its address.
- JSON text, file paths and files are not modelled: `init(path:)`, `init?(withConfigAtPath:)`, `parseJSON(atPath:)`, `createJSON()`, `createNewConfigFiles` and the JSON encoder's formatting options. Containers are maps from coding keys to values. Keys are opaque values compared only for equality.
- `generateNewConfigPair` needs key generation, which is out of scope. Only its use of one address for both configs is stated (`StarbridgeConfig.PairAgrees`).
- `Starburst`'s `Codable` conformance goes through a super-encoder and super-decoder of the `ToneBurst` class, which is not part of this model. Only the raw values of `StarburstMode` are modelled. The Replicant and transport wiring around `perform` are not modelled either.
- The server struct throws `StarbridgeError.invalidServerPort`. That case is declared in Sources/Starbridge/AsyncStarbridge.swift but missing from the `StarbridgeError` enum in Sources/Starbridge/StarbridgeError.swift, a different revision of the same type. The client struct throws `StarbridgeUniverseError.invalidServerPort`, which the `StarbridgeUniverseError` enum in Sources/Starbridge/Spacetime/StarbridgeUniverse.swift (lines 55-59) does not declare either. Error types and their descriptions are not modelled. Each struct module has its own `InvalidServerPort` error, which carries the address.
- The string literals of the `250-…welcome` line and of the client's `250 STARTTLS` pattern are written as two concatenated pieces. Their values equal the source's literals.
