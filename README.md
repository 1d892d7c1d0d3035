# Protocol recognizer of the game server's network front end

A model, in Dafny, of `cProtocolRecognizer`. This is the meta-protocol that stands in front of each
client connection. It keeps the client's first bytes in a buffer until it can tell which protocol
version the client speaks. It then redirects everything to the protocol object of that version for
the rest of the connection. A legacy server-list ping takes a separate path: the recognizer answers
it itself and destroys the client.

Files:

- `versions.dfy` (module `ProtocolVersions`): the closed version enum 29/39/47/49/51, with
  `PROTO_VERSION_LATEST`. It also holds the two advertised lists (`MCS_PROTOCOL_VERSIONS` and
  `MCS_CLIENT_VERSIONS`) and `GetVersionTextFromInt`.
- `text.dfy` (module `Text`): decimal text of integers and the ", "-separated lists, with their
  parsers. It is used to prove what the advertised lists contain.
- `recognizer_spec.dfy` (module `RecognizerSpec`): the connection state as a value (`Conn`). It has
  one function per operation (`TryRecognize`, `ServerPing`, `Receive`, `Forward`) and `Run` over
  any sequence of received chunks and Send* calls. The lemmas about runs are here.
- `recognizer.dfy` (module `Recognizer`): the class `ProtocolRecognizer`. Its fields are
  `protocol` (`m_Protocol`, `None` for the null pointer) and `buffer` (`m_Buffer`, a byte
  sequence appended in place). `destroyed` records that the client was destroyed. The logs
  `delivered`, `forwarded` and `replies` record what reached the recognized protocol and what the
  recognizer wrote itself. Each method is proved to change the state exactly as the matching
  `RecognizerSpec` function says. `DataReceived` is also proved to keep the invariant `Valid()`.

Only the header of the class is part of this model. The byte-level recognition rule is the
constructor parameter `classify`. It is a function from the buffered bytes to
`NeedMore | Version(v) | Ping | Reject`. No wire layout is assumed.

## Model

| member | source | states |
|---|---|---|
| ProtocolVersions.SupportedTable | source/Protocol/ProtocolRecognizer.h:36-40 | A number is supported iff it is one of 29, 39, 47, 49, 51. The enum values strictly increase in declaration order, so they are pairwise distinct. |
| ProtocolVersions.LatestIsNewest | source/Protocol/ProtocolRecognizer.h:42 | `PROTO_VERSION_LATEST` is supported, is the last enum value, and no supported version exceeds it. |
| ProtocolVersions.AdvertisedProtocolList | source/Protocol/ProtocolRecognizer.h:22 | The advertised protocol list is the enum values in declaration order, as decimal text joined by ", ". Parsing it gives back exactly those values. |
| ProtocolVersions.ClientListIsJoin | source/Protocol/ProtocolRecognizer.h:21 | The advertised client list is the nine releases 1.2.4 ... 1.4.7 joined by ", ". |
| ProtocolVersions.ClientListEntries | source/Protocol/ProtocolRecognizer.h:21 | Splitting the advertised client list at ", " gives exactly those nine releases, in order. |
| ProtocolVersions.GetVersionTextFromInt | source/Protocol/ProtocolRecognizer.h:48-49 | Total over int, with no precondition. 49 gives "1.4.4". Any unsupported number gives the unknown-protocol text that names the number. |
| ProtocolVersions.VersionTextAdvertised | source/Protocol/ProtocolRecognizer.h:48-49 | With the texts chosen from the enum names, a number's text is one of the advertised client releases iff the number is supported. |
| ProtocolVersions.VersionTextInjective | source/Protocol/ProtocolRecognizer.h:48-49 | With the texts chosen from the enum names, two numbers with the same text are equal, so a version text identifies one protocol number. |
| Text.DecimalRoundTrip | source/Protocol/ProtocolRecognizer.h:22 | Reading back the decimal text of a natural number gives the number. |
| Text.IntListRoundTrip | source/Protocol/ProtocolRecognizer.h:22 | A non-empty integer list written as decimal texts joined by ", " parses back to the same list. |
| Text.SplitJoin | source/Protocol/ProtocolRecognizer.h:21 | Splitting a ", "-joined list of comma-free words gives the words back. |
| RecognizerSpec.TryRecognize | source/Protocol/ProtocolRecognizer.h:110-111 | One attempt on the buffer. It stays sniffing, with the state unchanged, iff the rule needs more bytes. It recognizes iff the rule finds a supported version, and then binds that version and keeps the buffer for hand-off. Otherwise it closes with one reply and forwards nothing. |
| RecognizerSpec.ServerPing | source/Protocol/ProtocolRecognizer.h:113-114 | Answering a ping closes the connection and appends exactly one server-stats reply. |
| RecognizerSpec.Close | source/Protocol/ProtocolRecognizer.h:113-114 | Destroying the client discards the buffer and appends one reply. Nothing delivered or forwarded changes. |
| RecognizerSpec.Forward | source/Protocol/ProtocolRecognizer.h:54-100 | Once recognized, a Send* call is appended unchanged to the protocol's calls and nothing else changes. Before that, or once closed, the state is unchanged. |
| RecognizerSpec.InitialAccounts | source/Protocol/ProtocolRecognizer.h:45 | A new recognizer is sniffing with an empty buffer and nothing delivered, forwarded or replied. |
| RecognizerSpec.StepAccounts | source/Protocol/ProtocolRecognizer.h:107-108 | One received chunk or Send* call keeps every received byte accounted for, in order. Sniffing means all bytes are in the buffer. Recognized means all bytes were delivered to a supported protocol. Closed means none were delivered and there is exactly one reply. |
| RecognizerSpec.RunAccounts | source/Protocol/ProtocolRecognizer.h:107-108 | Any run keeps that accounting. No byte is lost, duplicated or reordered before or after the hand-off. |
| RecognizerSpec.FreshRunAccounts | source/Protocol/ProtocolRecognizer.h:51-52 | From a new connection, the buffer (while sniffing) or the protocol's input (once recognized) is exactly the bytes received so far. |
| RecognizerSpec.SelectionIsFinal | source/Protocol/ProtocolRecognizer.h:4-5 | Once a protocol is recognized, any later run keeps the same protocol. The run appends all later bytes to its input and all later Send* calls to its calls. The result does not depend on the recognition rule, so recognition is never re-run. |
| RecognizerSpec.RecognizedReceivesAll | source/Protocol/ProtocolRecognizer.h:4-5 | After recognition, receiving several chunks equals receiving their concatenation. |
| RecognizerSpec.ClosedIsFinal | source/Protocol/ProtocolRecognizer.h:113-114 | A destroyed client ignores every later chunk and Send* call. |
| RecognizerSpec.PingIsTerminal | source/Protocol/ProtocolRecognizer.h:113-114 | A chunk that completes a ping yields exactly one server-stats reply and closes the connection. Nothing is delivered to a protocol, then or ever after. |
| RecognizerSpec.UnsupportedVersionIsKicked | source/Protocol/ProtocolRecognizer.h:110-111 | A handshake whose version is not in the table yields a kick carrying that version. No protocol is bound afterwards. |
| RecognizerSpec.ChunkBoundaryInvariance | source/Protocol/ProtocolRecognizer.h:51-52 | Take a stable recognition rule and a sniffing state on which it has not decided. Receiving bytes in any number of chunks then ends in exactly the state that receiving them in one chunk gives. |
| RecognizerSpec.FreshChunkBoundaryInvariance | source/Protocol/ProtocolRecognizer.h:51-52 | The same from a new connection, for a stable recognition rule: any split of the bytes into chunks, one byte at a time included, gives the outcome of receiving them all at once. |
| Recognizer.ProtocolRecognizer.constructor | source/Protocol/ProtocolRecognizer.h:45 | A new recognizer has no protocol and an empty buffer, and satisfies the invariant. |
| Recognizer.ProtocolRecognizer.DataReceived | source/Protocol/ProtocolRecognizer.h:51-52 | Keeps the invariant and changes the state exactly as `Receive` does. Before recognition it appends the data to `buffer` in place and retries recognition, handing the whole buffer over on success. Afterwards it passes the data to the protocol. |
| Recognizer.ProtocolRecognizer.TryRecognizeProtocol | source/Protocol/ProtocolRecognizer.h:110-111 | Returns true exactly when it has set `protocol`. The state changes exactly as `TryRecognize` says, so on false the buffer is intact unless the client was closed. |
| Recognizer.ProtocolRecognizer.HandleServerPing | source/Protocol/ProtocolRecognizer.h:113-114 | Writes the server-stats reply, destroys the client and leaves no protocol set. |
| Recognizer.ProtocolRecognizer.Forward | source/Protocol/ProtocolRecognizer.h:54-100 | Keeps the invariant. It reports true iff a protocol was recognized, and then appends the call unchanged to what that protocol received. |

## Left out

- The roughly forty Send* overrides (lines 55-100) become one `Forward(op)`. An `Op` is a call name
  with its arguments. Game-domain argument types (entities, players, items, chunk serializers) are
  not modelled, and neither are the float volume and pitch of `SendSoundEffect`.
- Recognizer.ProtocolRecognizer.Forward: the header does not say what a Send* call does before a
  protocol is recognized. The model drops the call and returns false.
- `SendData` (line 104) is a raw socket write, which is I/O. The recognizer's own writes are
  recorded as `Reply` values instead.
- `GetAuthServerID` (line 102) depends on authentication and configuration objects that are not
  part of this model.
- The content of the ping answer (message of the day, player counts) comes from server objects that
  are not part of this model. It is the single value `ServerStats`.
- The byte layout of the handshake and of the legacy ping is in the implementation file, which is
  not part of this model. It is the abstract rule `classify`.
- RecognizerSpec.ChunkBoundaryInvariance: this holds only for a rule that is `Stable`. Such a rule
  decides nothing on no bytes and never changes its decision when more bytes arrive. Whether the
  real rule is stable cannot be seen from the header.
- RecognizerSpec.FreshChunkBoundaryInvariance: for the same reason, this holds only for a `Stable`
  rule. With a rule that changes its mind, two one-byte chunks can close the connection where the
  same two bytes in one chunk are recognized.
- ProtocolVersions.GetVersionTextFromInt: the header documents only 49 -> "1.4.4" (line 48). The
  texts for 29, 39, 47 and 51 ("1.2.5", "1.3.2", "1.4.2", "1.4.6") are taken from the names of the
  enum constants, which is a choice of the model. Another reading would give one number several
  releases, for example 51 -> "1.4.7". ProtocolVersions.VersionTextAdvertised and
  ProtocolVersions.VersionTextInjective are properties of this choice of texts. The text for an
  unsupported number, "Unknown protocol (<n>)", is also a choice of the model, because the header
  shows no wording. Only the facts that it names the number and differs from every release text
  are proved.
- An unsupported version closes the connection with `Kick(UnsupportedVersion(v))`, which carries
  `v`. The wording of kick messages is not modelled; a kick carries a structured reason instead.
- The header shows no cap on how many undecided bytes the buffer may hold, so the model has none.
- The destructor, ownership of the protocol object, and threading are not modelled. The model treats
  a connection as one sequence of calls.
