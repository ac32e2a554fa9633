# Direct messaging between the edge service and the dialog service

This project models, in Dafny, the direct-messaging core of a social-network backend made of two Go services:

- **The dialog service** (`dialog-service/main.go`). It keeps every conversation in memory. A map goes from a conversation key to the append-only sequence of that conversation's messages. The service answers four routes. `/health` is open. `/dialog/:user_id/send`, `/dialog/:user_id/list` and `/dialogs` require the caller's id in the `X-User-ID` header.
- **The edge service** (`monolith/main.go`). It authenticates callers by bearer token. It keeps login tokens and friend sets in memory. It forwards send and list operations to the dialog service, with the caller's id in `X-User-ID`, and relays the answer.
- **`uuid4`** (`insert_logs.go`). It turns 16 random bytes into a version-4 UUID string (section 4.4 of RFC 4122, section 5.4 of RFC 9562).

Modules:

- `Base` (`base.dfy`): `Option` and bytes.
- `DialogKey` (`dialog_key.dfy`): `createDialogKey` and Go's string order.
- `DialogService` (`dialog_service.dfy`): the store as a class `DialogStorage` with field `dialogs`, one method per handler, the router, and pure functions that specify the store with their lemmas.
- `EdgeSession` (`edge_session.dfy`): `strings.Split`, bearer parsing, `authMiddleware`, and the class `Storage` with fields `tokens` and `friendships` and the methods `Login`, `AddFriend` and `GetFeed`.
- `EdgeRelay` (`edge_relay.dfy`): the outbound call to the dialog service and how its outcome becomes the edge service's answer.
- `Uuid` (`uuid.dfy`): the masking done on a freshly allocated 16-byte array, hex formatting, and a parser that states the round trip.

Each handler is one atomic step on the in-memory maps here. In the Go code, the dialog service's handlers and the edge service's `login` and `addFriend` hold the storage lock while they read or write the maps. `getFeed` does not hold it while it iterates (see "Left out"). Values that come from outside become parameters:

- the message timestamp (`time.Now()`), as a `Timestamp` the model assumes nothing about;
- the database existence checks and the bcrypt password check, as booleans;
- the freshly generated login token, as a string;
- the bytes `crypto/rand` writes, as a sequence;
- the dialog service as seen from the edge, as a function from the outbound call to `TransportError | Reply(status, body)`.

In these places the model follows what the code does:

- A failed call to the dialog service is answered with HTTP **500** whose JSON body carries `"code": 503`. It is not answered with an HTTP 503 status (monolith/main.go:541, :563).
- `getDialog` and `getUserDialogs` hand out the stored slice itself, not a defensive copy (dialog-service/main.go:98, :141). Dafny's value semantics make the returned sequence immutable, but the model claims no copy.
- Timestamps are `time.Now()` values with no monotonicity guarantee. The model claims none.
- The conversation key is not injective. Ids containing `_` collide: `("a_b","c")` and `("a","b_c")` both give `a_b_c`. `KeyCollision` proves this, and `CollisionHidesDialog` proves a consequence: a sender can be missing from `getUserDialogs` for a conversation that holds their own message. The participant properties are proved for ids without `_`.

## Model

| member | source | states |
|---|---|---|
| DialogKey.CreateDialogKey | dialog-service/main.go:36-41 | the key is the two ids joined by `_`, in one of the two orders, one character longer than both together |
| DialogKey.LessIrreflexive | dialog-service/main.go:37 | no id is smaller than itself under Go's string `<` |
| DialogKey.Less | dialog-service/main.go:37 | Go's string `<`: an id is never smaller than an equal id, and a proper prefix is smaller than the longer id |
| DialogKey.LessTransitive | dialog-service/main.go:37 | the order is transitive |
| DialogKey.LessTrichotomy | dialog-service/main.go:37 | of two ids, exactly one is smaller iff they differ; with irreflexivity and transitivity, Go's string `<` is a strict total order |
| DialogKey.KeySymmetric | dialog-service/main.go:36-41 | `createDialogKey(a,b) == createDialogKey(b,a)` for all ids |
| DialogKey.KeyPutsSmallerFirst | dialog-service/main.go:37-40 | in either call direction the key is `min + "_" + max` under string `<` |
| DialogKey.SeparatorSplitsUniquely | dialog-service/main.go:38 | two `_`-free halves joined by `_` are recovered uniquely from the joined string |
| DialogKey.KeyDeterminesPair | dialog-service/main.go:36-41 | when neither id of a pair contains `_`, any pair with the same key is the same unordered pair |
| DialogKey.KeyCollision | dialog-service/main.go:36-41 | `("a_b","c")` and `("a","b_c")` both give the key `a_b_c` |
| DialogService.Appended | dialog-service/main.go:84 | an append creates the key if absent, adds the message at the end, and leaves every other key's conversation as it was |
| DialogService.Identity | dialog-service/main.go:44-56 | a caller id is accepted iff the `X-User-ID` header is present and non-empty, and it is then the header's value |
| DialogService.DialogStorage.constructor | dialog-service/main.go:31-33 | the store starts empty and satisfies the store invariant |
| DialogService.DialogStorage.SendMessage | dialog-service/main.go:59-89 | no or empty `text` gives 400 "Invalid request data" and a self-send gives 400 "Cannot send message to yourself", both with the store unchanged; otherwise exactly one message `{from, to, text, now}` is appended under `createDialogKey(from, to)`, the response is 200, and the store invariant holds afterwards |
| DialogService.DialogStorage.GetDialog | dialog-service/main.go:91-107 | answers 200 with the stored conversation of the pair in insertion order, or `[]` if the pair never talked; the store is not changed |
| DialogService.DialogStorage.HealthCheck | dialog-service/main.go:110-127 | `total_dialogs` is the number of keys and `total_messages` is the sum of all conversation lengths, whatever order the loop visits the keys in; the store is not changed |
| DialogService.DialogStorage.GetUserDialogs | dialog-service/main.go:130-148 | the result holds key `k` iff `dialogs[k]` is non-empty and its first message is from or to the caller, each mapped to the stored conversation; the store is not changed |
| DialogService.DialogStorage.Serve | dialog-service/main.go:150-183 | every answer is 200, 400 or 401; `/health` answers the statistics whatever the header says; every other route with a missing or empty `X-User-ID` gets 401 and reaches no handler, so the store is unchanged; with an id, `/list` answers 200 with the pair's conversation and `/dialogs` answers 200 with the caller's conversations, both leaving the store unchanged; a send answers 400 with the store unchanged when `text` is missing or empty or the recipient is the caller, and otherwise 200 with exactly the one message appended under the pair's key |
| DialogService.TotalMessagesRemove | dialog-service/main.go:114-116 | the message total is the length of any one conversation plus the total of the rest |
| DialogService.SendAddsOneMessage | dialog-service/main.go:84 | each successful send raises `total_messages` by exactly one |
| DialogService.SendCountsDialogs | dialog-service/main.go:84 | a send raises `total_dialogs` by one exactly when its key is new |
| DialogService.SendPreservesInvariant | dialog-service/main.go:69-84 | after a send between distinct users, every message is still filed under the key of its own two distinct participants, and no stored conversation is empty |
| DialogService.DialogSymmetric | dialog-service/main.go:95-98 | `getDialog(u, v)` and `getDialog(v, u)` read the same conversation |
| DialogService.SendExtendsDialog | dialog-service/main.go:81-84 | after a send from a to b, both `getDialog(a,b)` and `getDialog(b,a)` are the earlier conversation plus the new message at the end, and every pair with another key reads as before |
| DialogService.RepeatedSendStoresTwice | dialog-service/main.go:74-84 | sending the same message twice stores it twice: nothing is deduplicated |
| DialogService.SendVisibleToParticipants | dialog-service/main.go:136-143 | under the store invariant and with `_`-free ids, after a send from a to b the conversation is listed with its full contents for a and for b, and for no third user |
| DialogService.AliceHelloBob | dialog-service/main.go:74-106 | on an empty store, after alice sends "hello" to bob, the list asked by alice and the list asked by bob are that one message, and both see the conversation among their dialogs |
| DialogService.CollisionHidesDialog | dialog-service/main.go:136-143 | with `_` in ids, "x_y" can send into the conversation "x_y_z" started by "x" to "y_z", and `getUserDialogs` for "x_y" does not list it |
| EdgeSession.Split | monolith/main.go:306 | `strings.Split` on one character: at least one piece, no piece contains the separator, and joining the pieces with the separator gives back the input |
| EdgeSession.SplitWithoutSeparator | monolith/main.go:306 | a string without the separator splits into itself alone |
| EdgeSession.SplitAfterWord | monolith/main.go:306 | a separator-free word followed by the separator splits off as the first piece |
| EdgeSession.BearerToken | monolith/main.go:306-313 | a token is extracted only from a header that is exactly `"Bearer "` followed by it, and it holds no space |
| EdgeSession.BearerTokenIff | monolith/main.go:306-313 | the header yields token t iff it is exactly `"Bearer " + t` with no space in t; so two spaces (three pieces) are refused |
| EdgeSession.Authenticate | monolith/main.go:297-327 | an absent or empty `Authorization` header gives "Authorization header required"; an accepted caller's id is one of the ids in `tokens` |
| EdgeSession.AuthenticateBearer | monolith/main.go:313-324 | for a well-formed bearer header, a token absent from `tokens` gives "Invalid token" and a present token authenticates the caller as `tokens[token]` |
| EdgeSession.AuthenticatedHasBearer | monolith/main.go:299-324 | every accepted request carried `"Bearer " + t` for a token t in `tokens` that maps to the caller's id |
| EdgeSession.WithFriend | monolith/main.go:443-447 | adding a friend creates the caller's entry if absent and leaves every other user's set unchanged |
| EdgeSession.WithFriendAddsOne | monolith/main.go:443-447 | the caller's set becomes the old set plus the friend, and repeating the addition changes nothing |
| EdgeSession.Storage.constructor | monolith/main.go:95-98 | both maps start empty |
| EdgeSession.Storage.Login | monolith/main.go:330-355 | a missing or empty id or password gives 400, an unknown user 404 and a wrong password 401, each with `tokens` unchanged; on success the new token maps to the request's id, every other token entry is unchanged, and no token maps to an empty id |
| EdgeSession.Storage.AddFriend | monolith/main.go:432-451 | an unknown friend gives 400 with `friendships` unchanged; otherwise the response is 200 and `friendships` becomes `WithFriend(old, caller, friend)` |
| EdgeSession.Storage.GetFeed | monolith/main.go:481-493 | a caller with no friend set gets the empty feed with no query; otherwise the query lists each friend exactly once, and nothing else |
| EdgeSession.AuthenticatedIdNonEmpty | monolith/main.go:313-324 | when no token maps to an empty id, an authenticated caller's id is non-empty |
| EdgeRelay.MakeDialogServiceRequest | monolith/main.go:577-591 | the call goes to the service URL followed by the path, carries the given body unchanged, and sets `X-User-ID` to the caller |
| EdgeRelay.SendMessage | monolith/main.go:520-553 | an unknown recipient gives 400 "Recipient not found" and an unreadable body gives 400, neither making a call; otherwise one POST goes to `url + "/dialog/{to}/send"` with the original body bytes and `X-User-ID` = caller, and its outcome is relayed |
| EdgeRelay.GetDialog | monolith/main.go:555-575 | always one GET to `url + "/dialog/{other}/list"` with no body and `X-User-ID` = caller, whose outcome is relayed |
| EdgeRelay.Relay | monolith/main.go:538-552 | a transport error gives 500 with message "Dialog service unavailable" and code 503; a reply whose body cannot be read gives 500 "Failed to read dialog service response"; a readable reply is answered with its own status and its bytes as `application/json` |
| EdgeRelay.TransportErrorIsDistinct | monolith/main.go:538-543 | a transport error is answered with HTTP 500 and body code 503; by status alone it differs from the relay of every completed reply whose status is not 500 |
| EdgeRelay.RelayIsVerbatim | monolith/main.go:544-552 | a readable reply relays as its own status and bytes; two readable replies that relay to the same answer had the same status and the same bytes |
| EdgeRelay.ForwardedIdentityAccepted | monolith/main.go:520-587 | the id the edge service forwards in `X-User-ID`, on a send that makes the call and on a list, always passes the dialog service's identity check |
| Uuid.Masked | insert_logs.go:15-16 | masking keeps the buffer at 16 bytes |
| Uuid.Uuid4 | insert_logs.go:12-18 | the string is the formatted form of the random bytes after masking bytes 6 and 8 in the array |
| Uuid.HexDigit | insert_logs.go:17 | every digit `%x` prints is a lower-case hex character |
| Uuid.HexValue | insert_logs.go:17 | exactly the lower-case hex characters have a value, and it is below 16 |
| Uuid.EncodeHex | insert_logs.go:17 | `%x` prints two lower-case hex characters per byte |
| Uuid.DecodeHex | insert_logs.go:17 | decoding yields one byte per two characters |
| Uuid.HexDigitValue | insert_logs.go:17 | the printed digit of a nibble reads back as that nibble |
| Uuid.ValueHexDigit | insert_logs.go:17 | a lower-case hex character is the printed digit of its value |
| Uuid.NibblesJoin | insert_logs.go:17 | a byte is its high nibble followed by its low nibble |
| Uuid.NibblesSplit | insert_logs.go:17 | two nibbles put together split back into the same nibbles |
| Uuid.MaskedBits | insert_logs.go:13-16 | byte 6 has high nibble 0x4 and keeps its low nibble; byte 8 has top bits `10` and keeps its low six bits; all other bytes are the input |
| Uuid.DecodeEncodeHex | insert_logs.go:17 | decoding the hex printing of any bytes gives those bytes back |
| Uuid.EncodeDecodeHex | insert_logs.go:17 | a string that decodes is the hex printing of what it decodes to |
| Uuid.HyphenatedSlices | insert_logs.go:17 | five groups of 8, 4, 4, 4 and 12 characters joined by `-` are 36 characters long, have `-` at 8, 13, 18 and 23, and the groups are recovered by slicing |
| Uuid.HyphenatedOfSlices | insert_logs.go:17 | a 36-character string with `-` at 8, 13, 18 and 23 is its five groups joined by `-` |
| Uuid.BytesSlices | insert_logs.go:17 | the byte groups 4-2-2-2-6 put together are 16 bytes and are recovered by slicing |
| Uuid.Format | insert_logs.go:17 | the output is 36 characters with `-` at indices 8, 13, 18 and 23 |
| Uuid.FormatShape | insert_logs.go:17 | the output is 36 characters, with `-` at indices 8, 13, 18 and 23 and lower-case hex everywhere else |
| Uuid.ParseFormat | insert_logs.go:17 | decoding the hex groups of the output recovers exactly the 16 bytes |
| Uuid.FormatParse | insert_logs.go:17 | a string that parses is the output for the 16 bytes it parses to |
| Uuid.Uuid4Digits | insert_logs.go:15-17 | the version digit prints as `4` and the variant digit as one of `8`, `9`, `a`, `b` |

## Left out

- Concurrency: the `sync.RWMutex`/`sync.Mutex` locks and goroutines are not modelled. Each handler is one atomic step. For the dialog service's handlers and the edge service's `login` and `addFriend`, the locks make the map access atomic in the source too.
- EdgeSession.Storage.GetFeed: modelled as one atomic step. The source takes the caller's friend set under `RLock` and then ranges over that inner map after `RUnlock` (monolith/main.go:481-493). A concurrent `addFriend` writes the same inner map at monolith/main.go:447, so the source can race there. The model does not capture this.
- DialogKey.Less: ids are Dafny strings compared character by character. Go compares the bytes of the strings. The two orders agree on valid UTF-8, where byte order is code-point order. Ids holding invalid UTF-8 cannot be represented.
- Aliasing: the Go store holds `[]*DialogMessage`, and `getDialog`/`getUserDialogs` return the stored slice. Dafny sequences are values, so the model cannot show sharing.
- The gin router's path matching, JSON binding and JSON output, and the CORS middleware with its 204 answer to `OPTIONS`: requests arrive as parsed fields and responses as datatypes. A `text` or login field that does not bind is `None`.
- The edge service's router: its handlers take the caller id that `Authenticate` produced. The wiring of `authMiddleware` in front of them (monolith/main.go:634-642) is not modelled as a function.
- The posts query of `getFeed` and the parsing of its `offset`/`limit` parameters: these are database I/O. The model stops at the list of author ids that would be queried.
- PostgreSQL access, bcrypt, `uuid.New()` in `login`, `crypto/rand.Read`, `time.Now()`: these are foreign I/O, crypto, randomness or clock, and they are parameters.
- `http.Client` with its 10-second timeout: network and wall-clock time. Only the call's outcome is modelled. A failure of `http.NewRequest` takes the same branch as a transport error and is part of `TransportError`.
- The encoding of dialog-service responses into the bytes the edge service relays: the edge service treats them as opaque bytes.
- The `DIALOG_SERVICE_URL` default (monolith/main.go:26-33), ports, logging, `register`, `getUser`, `searchUsers`, `createPost`, `insertLog`, the edge service's `/health`, CSV import and random user generation, and the load generator's `main`: these are environment wiring or database I/O outside the messaging core.
- DialogService.DialogStorage.HealthCheck: Go's `int` counters are unbounded `nat` here; 64-bit overflow is out of reach for an in-memory store.
