# Location server protocol engine, in Dafny

A model of the protocol engine of one server in a five-server location
network (`project/server.py`). Clients report their position with `IAMAT`
and ask about places near a client with `WHATSAT`. Servers pass position
records to each other with `AT` messages, flooding them over a fixed
adjacency table.

The model is a sequential state transformer. The state of one server is
its client history, a map from client id to the fields of the latest record
it holds. The server's name, the port table and the adjacency table are
constants.

- `codec.dfy` (module `Codec`): `message2list` (split on whitespace),
  `" ".join`, and `location2list` (blanks around every sign, then split).
- `numbers.dfy` (module `Numbers`): `is_float` and `is_int` as a decimal
  grammar, with the exact value of a number as a `real` or an `int`.
- `formats.dfy` (module `Formats`): `is_iso_6709` and `is_posix_time`.
- `string_order.dfy` (module `StringOrder`): Python's `<=` on `str`,
  the order in which the `AT` handler compares timestamps.
- `topology.dfy` (module `Topology`): `port_map` and `network_flow`.
- `protocol.dfy` (module `Protocol`): the validator and the handlers as
  pure functions. Each handler is a function from a history and a message
  to an `Outcome`: the reply text (if any), the new history, the flood
  sends, and the nearby-search request (if any). `Step` is the dispatch of
  `handle_echo`.
- `server.dfy` (module `LocationServer`): `class Server`. It holds the
  name and the history, and its handlers update the history in place.
  `HandleIamat` builds its record by appends, and `FloodToAll` loops over
  the neighbours. Each method is proved to do what the matching `Protocol`
  function says.
- `network.dfy` (module `Network`): the five servers together, with every
  message handled to completion before the next. It proves that the flood
  of one record terminates. When no other server already holds the client
  at that time or a later one, every server ends up storing the record the
  origin built. The source does not state this property; it follows from
  the handlers and the adjacency table.

The receive time, the rendering of a float by `str()`, the search
service's reply and `json.dumps` are parameters of the model.

The model follows the code as written, including three points where it
differs from what a reader of the comments might expect:

- Timestamps are compared as text, by code point, and not as numbers
  (`project/server.py:172`).
- A coordinate splits into four fields: sign, number, sign, number
  (`project/server.py:50-51`, `project/server.py:228-231`). It does not split
  into two signed numbers.
- The time difference gets a `+` only when it is positive
  (`project/server.py:145-148`), although the AT validator demands a sign
  (`project/server.py:272`). The handlers use this rule. The corrected rule
  is defined beside it and proved to agree with it except at a zero
  difference (see Findings).

## Model

| member | source | states |
|---|---|---|
| Codec.LocationToList | project/server.py:50-51 | definition of `location2list`: a blank put around every `+` and `-`, then the whitespace split; Codec.LocationToListSplitsAtSigns states what it yields |
| Codec.MessageToList | project/server.py:47-48 | every field of a split message is non-empty and free of whitespace |
| Codec.MessageToListKeepsText | project/server.py:47-48 | splitting loses nothing but whitespace: the fields glued back together are the message with its whitespace removed |
| Codec.SplitJoin | project/server.py:47-48 | splitting the single-space join of non-empty, whitespace-free fields gives the same fields back, which is the round trip behind every join the server sends and re-reads |
| Codec.LocationToListSplitsAtSigns | project/server.py:50-51 | on a whitespace-free text, `location2list` equals an independent split in which every sign is a field and every run between signs is one field |
| Codec.SignTokensShape | project/server.py:50-51 | the fields of that split are signs or runs, no run directly follows a run, and the fields together spell the text again |
| Numbers.IsFloat | project/server.py:30-35 | definition of the texts `float()` accepts: an optional sign, then digits with at most one decimal point and at least one digit |
| Numbers.FloatValue | project/server.py:30-35 | definition of `float()` on those texts, as an exact `real` |
| Numbers.IsInt | project/server.py:37-42 | definition of the texts `int()` accepts: an optional sign, then one or more digits |
| Numbers.IntValue | project/server.py:37-42 | definition of `int()` on those texts |
| Numbers.IntIsFloat | project/server.py:30-42 | every text `int()` accepts, `float()` accepts too, with the same value |
| Numbers.SignIsNotFloat | project/server.py:30-35 | a lone `+` or `-` is not a number |
| Formats.IsIso6709 | project/server.py:66-77 | definition of `is_iso_6709`: `location2list` gives four fields whose second and fourth are numbers |
| Formats.IsPosixTime | project/server.py:79-80 | definition of `is_posix_time`: the text is a number |
| Formats.IsoShape | project/server.py:66-77 | a field that passes `is_iso_6709` splits into exactly sign, number, sign, number, and these four spell the field again |
| StringOrder.LexLe | project/server.py:172 | definition of `<=` on two timestamp texts, by code point; the lemmas below state its meaning and its order laws |
| StringOrder.LexLeMeaning | project/server.py:172 | the comparison is Python's string order: `a` is a prefix of `b`, or `a` has the smaller code point at the first difference |
| StringOrder.LexLeReflexive | project/server.py:172 | every timestamp text is `<=` itself |
| StringOrder.LexLeTotal | project/server.py:172 | any two texts are comparable |
| StringOrder.LexLeTransitive | project/server.py:172 | the order is transitive |
| StringOrder.LexLeAntisymmetric | project/server.py:172 | two texts each `<=` the other are equal |
| Topology.TopologyWellFormed | project/server.py:95-108 | every server has a port and a neighbour list, and neighbours are servers; "talks with" is symmetric, as the comment says, with no self-loops; every server name is one message field. The tables are the constants `Topology.PORT_MAP` (lines 87-93) and `Topology.NETWORK_FLOW` (lines 102-108), copied entry for entry |
| Topology.Connected | project/server.py:102-108 | the adjacency table is connected: a set of servers closed under "talks with" that holds one server holds all five |
| Protocol.Validate | project/server.py:251-340 | definition of `validate_message_list`: false for no fields and for an unknown command, otherwise the rule of the command in field 0 |
| Protocol.ValidAt | project/server.py:266-287 | definition of the AT rule: 7 fields, known servers in fields 1 and 6, field 2 a sign and a number, a position and a time |
| Protocol.ValidIamat | project/server.py:297-306 | definition of the IAMAT rule: 4 fields, a position and a time |
| Protocol.ValidWhatsat | project/server.py:316-337 | definition of the WHATSAT rule: 4 fields, a known client, a number radius in [0, 50], an integer bound in [0, 20]; Protocol.WhatsatValidity states it as an if-and-only-if |
| Protocol.ValidateRejects | project/server.py:251-340 | the validator rejects an empty list, an unknown command, a wrong field count (not 7 for AT, not 4 for IAMAT and WHATSAT), an unknown server in AT field 1 or 6, and an AT field 2 that is not a sign followed by a number |
| Protocol.WhatsatValidity | project/server.py:309-337 | WHATSAT validates if and only if the client is in the history, the radius is a number in [0, 50] and the bound an integer in [0, 20] |
| Protocol.WhatsatBoundariesAccepted | project/server.py:326-337 | for a known client, radius 0 with bound 0, and radius 50 with bound 20, are accepted |
| Protocol.WhatsatBoundariesRejected | project/server.py:326-337 | radius 50.5, radius -0.5 and bound 21 are rejected |
| Protocol.TimeDiffAsWritten | project/server.py:143-149 | definition of `calculate_time_diff` as written: `+` and the rendered difference when the difference is positive, the rendered difference alone otherwise |
| Protocol.TimeDiff | project/server.py:143-149 | definition of the corrected rule: `+` also in front of a zero difference |
| Protocol.TimeDiffAgrees | project/server.py:143-149 | away from a zero difference the rule as written and the corrected rule give the same field |
| Protocol.TimeDiffAsWrittenSigned | project/server.py:143-149 | with a decimal rendering, the difference as written is a sign followed by a number, as the AT validator requires of field 2, if and only if the receive time differs from the client's time |
| Protocol.TimeDiffAsWrittenSign | project/server.py:143-149 | as written, the time difference is one field and starts with `+` exactly when receive time minus client time is positive |
| Protocol.ZeroDelayRejected | project/server.py:143-149 | as written, a zero difference is rendered "0.0" with no sign, and the AT record carrying it fails validation at every server |
| Protocol.TimeDiffSign | project/server.py:143-149 | the corrected difference is one field and starts with `+` exactly when receive time minus client time is not negative |
| Protocol.TimeDiffSigned | project/server.py:143-149 | with a decimal rendering, the corrected difference is a sign followed by a number, as the AT validator requires of field 2 |
| Protocol.Relay | project/server.py:423-428 | definition of the relayed fields: this server's name appended to six fields, written over field 6 of seven or more, and nothing (the `IndexError` branch) for fewer |
| Protocol.FloodSends | project/server.py:401-448 | definition of `flood_to_all`: one send of the relayed fields, joined by single spaces, to each neighbour in list order |
| Protocol.FloodShape | project/server.py:412-430 | flooding a six- or seven-field record sends exactly one message to each neighbour, in list order, never to the sender itself; each message reads back as the record's first six fields plus this server's name |
| Protocol.LatLon | project/server.py:230-231 | definition of the "lat,lon" text: the four fields of `location2list`, with a comma between the second and third |
| Protocol.LatLonInsertsComma | project/server.py:228-231 | the "lat,lon" rendering of a stored position is the position with one comma inserted between the two signed numbers |
| Protocol.AtOutcome | project/server.py:160-180 | definition of `handle_at_command`: nothing when the client is known with a timestamp at least as late, as text; otherwise store the record and flood it |
| Protocol.IamatRecord | project/server.py:198-204 | definition of the record IAMAT builds: `AT`, this server, the time difference as written, client, position and client time |
| Protocol.IamatOutcome | project/server.py:183-210 | definition of `handle_iamat_command`: store the record, answer with its single-space join, flood it |
| Protocol.WhatsatOutcome | project/server.py:213-244 | definition of `handle_whatsat_command`: the search near the stored position and the answer built from the stored record and the cut reply |
| Protocol.InvalidResponse | project/server.py:246-248 | definition of the answer to an invalid message: "? " then the fields joined by single spaces |
| Protocol.Step | project/server.py:358-378 | definition of `handle_echo`: split, validate, answer an invalid message, otherwise run the handler of field 0 |
| Protocol.InvalidEchoes | project/server.py:358-364 | an invalid message leaves the history unchanged, floods nothing, makes no search, and is answered by "? " followed by text that splits into the message's own fields |
| Protocol.UnknownClientRejected | project/server.py:319-321 | a WHATSAT about a client not in the history is answered "? WHATSAT client radius bound" and changes nothing |
| Protocol.AtStaleness | project/server.py:171-180 | a known client whose incoming timestamp is `<=` the stored one, as text: no change, no reply, no flood. Otherwise the whole incoming record replaces that client's entry, every other entry stays, and one copy goes to each neighbour in list order, reading back as the record's first six fields plus this server's name |
| Protocol.AtIdempotent | project/server.py:171-176 | delivering the same AT record twice changes the history at most once; the second delivery sends nothing |
| Protocol.AtMonotone | project/server.py:171-176 | for every known client, the stored timestamp never goes back (in text order) across an AT step |
| Protocol.IamatOverwrites | project/server.py:198-210 | IAMAT stores `[AT, name, diff, client, position, time]` with no staleness check and keeps every other entry. It answers with the record's single-space join, which splits back into the record. Each neighbour, in order, gets the record plus this server's name. `diff` is the difference as written and starts with `+` exactly when the difference is positive |
| Protocol.IamatFloodValid | project/server.py:198-210 | with a decimal rendering, each flood message IAMAT sends passes the AT validator of any server, whatever its history, if and only if the receive time differs from the client's time |
| Protocol.WhatsatAnswers | project/server.py:228-244 | WHATSAT changes nothing and floods nothing. It searches near the stored position as "lat,lon", with the radius in metres. It answers with the stored record's first six fields, then the reply cut to its first `bound` results (all of them when there are fewer): the kept count is at most the bound, at most 20 and at most the number of results, and equals the bound or the number of results |
| Protocol.AtKeepsInv | project/server.py:171-176 | an AT step keeps every stored record well formed: 6 or 7 fields, keyed by its own client id, valid position and time |
| Protocol.IamatKeepsInv | project/server.py:198-206 | an IAMAT step keeps every stored record well formed |
| Protocol.StepKeepsInv | project/server.py:358-378 | every message keeps every stored record well formed, so the slice and indexing WHATSAT does on a record cannot fail |
| LocationServer.Server.constructor | project/server.py:110-117 | a server with a configured name starts with an empty history |
| LocationServer.Server.FloodToAll | project/server.py:401-448 | the loop over the neighbours sends what `FloodSends` specifies: field 6 appended or overwritten with this server's name, one message per neighbour in order, and nothing when the message has fewer than six fields |
| LocationServer.Server.HandleAt | project/server.py:160-180 | the in-place AT handler leaves the history and sends the floods that `AtOutcome` specifies, and keeps the record invariant |
| LocationServer.Server.HandleIamat | project/server.py:183-210 | the record built by appends (with the time difference as written), the reply, the new history and the floods are those of `IamatOutcome` |
| LocationServer.Server.HandleWhatsat | project/server.py:213-244 | the search request and the reply are those of `WhatsatOutcome`, and the history is not changed |
| LocationServer.Server.HandleInvalid | project/server.py:246-248 | the reply is "? " and the fields joined, and its text after "? " splits back into the received fields |
| LocationServer.Server.HandleEcho | project/server.py:358-378 | the dispatch leaves the reply, history, floods and search request that `Step` specifies, and keeps the record invariant |
| Network.CopyValid | project/server.py:256-287 | a flooded copy validates at a server if and only if its record is acceptable, so whether it validates depends neither on which server relayed it nor on the receiver's history |
| Network.Deliver | project/server.py:171-180 | a server given a copy of the record either takes it and relays one copy per neighbour, or changes nothing and sends nothing |
| Network.AdvanceShrinks | project/server.py:171-176 | each delivery either makes one more server hold the record or changes nothing and sends nothing, so the flood ends |
| Network.Settle | project/server.py:401-448 | delivering the flood until no message is left changes only the client's entry, only on servers that did not hold it, and only to a copy of the record. When the record validates, every destination and every neighbour of every server that took it ends up holding it |
| Network.Broadcast | project/server.py:183-210 | an IAMAT at one server, then its whole flood: when no other server holds the client at that time or later and the receive time differs from the client's time, every server ends up storing the origin's record |

## Left out

- Concurrency: `asyncio` tasks, `gather`, connection handling and the race between the staleness check and the store are not modelled. Each message is handled to completion.
- Flood connection failures: a neighbour that refuses the connection is not modelled, and every send is taken to arrive. The `IndexError` branch of `flood_to_one` is modelled as "nothing sent", and the log line is left out.
- The HTTP search (`HttpClient`, `ApiManager`, the URL with its key) is left out. The decoded reply is a parameter: a results list plus opaque other entries.
- `json2string` (`json.dumps` with indentation) is a parameter `dumps`.
- Log-file writes, `respond` (writing to and closing the socket), `reader.read`, `run_until_interrupted`, `main` and argument parsing are left out. So are `print_invalid_server_name_message` and `sys.exit`; instead the constructor requires a configured name.
- `time.time()`: the receive time is a parameter.
- `float()` and `int()` are modelled as plain decimal notation with exact values. `nan`, `inf`, exponents, underscores, surrounding whitespace and non-ASCII digits are not modelled, and neither is binary floating-point rounding, including in `radius * 1000` and in the time difference.
- `str()` of a float is a parameter `render`. It is only required to give one field that never starts with `+`, and, where a record must validate, a decimal number carrying `-` exactly for negative values.
- `message_max_length` (the read limit) and the socket byte decoding are not modelled. A message is a `string`.
- `project/client.py` is not part of this model.
- Network.Settle: the servers are histories held as values, not objects. Messages are delivered one at a time in queue order, so other interleavings are not covered.
- Network.Broadcast: proved only for a decimal rendering and a receive time that differs from the client's time. At a zero difference the record as written carries no sign, every neighbour rejects it (Protocol.IamatFloodValid, Protocol.ZeroDelayRejected), and the flood stops at the first hop (see Findings).

## Findings

| source | as written | input that shows it | evidently intended | confidence | as-written member | corrected member |
|---|---|---|---|---|---|---|
| project/server.py:143-149 | `calculate_time_diff` puts a `+` only in front of a positive difference, so a zero difference is rendered as `str(0.0)`, "0.0", with no sign; the AT validator (line 272) rejects a time difference without a sign, so every neighbour answers the flood with "?" and drops the position | an IAMAT whose client timestamp equals the server's receive time, e.g. both 1621464827.959498028 | every difference that is not negative carries `+`, so the record always carries the sign the validator requires and the position spreads; the two rules differ only at zero (Protocol.TimeDiffAgrees), and the handlers keep the rule as written | not executed; the exact-zero case needs the two clocks to agree to the last bit | Protocol.ZeroDelayRejected | Protocol.TimeDiffSigned |
