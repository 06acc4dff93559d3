# Relay connection registry — a Dafny model

The modelled system is a websocket relay for a rhythm-game battle server. A
client connects to a room in one of six modes. The connect handler
(`register_user`) admits the connection only when the mode and room id are
well formed, when the table holds fewer than `MAX_CONNECTIONS` connections in
all, and when the room+mode has a free seat: four seats in modes 1, 2, 4 and 5,
two in modes 3 and 6. An admitted connection is written to a table keyed by
connection id. The message handler (`broadcast_result`) relays a result to every
connection of the room+mode, the sender included. A send that finds its peer
gone deletes that peer's record. The disconnect handler (`unregister_user`)
deletes the caller's record.

Files:

- `protocol.dfy` (module `Protocol`): the boundary values. These are the
  connect parameters, the decoded message, a send outcome
  (`Sent | PeerDisconnected | SendError`), the store calls that can fail, and
  the `(status, body)` responses.
- `admission.dfy` (module `Admission`): the pure checks. It covers the mode
  format and `int(mode)`, the room id form, and the per-mode capacity rule.
- `messages.dfy` (module `Messages`): the message side. It covers the
  truthiness of the required fields, `int(mode)` on a number or a string, and
  the relayed payload with its defaults.
- `store.dfy` (module `Store`): the table is a `map<ConnId, Entry>`. The
  room_mode index is `Members(t, Entry(room, mode))`. The scan count is `|t|`.
  The module also holds the capacity invariant and how a put or a delete
  changes the index.
- `registry.dfy` (module `Registry`): the handlers.
  - `RegisterOutcome` and `UnregisterOutcome` are the specification functions
    of connect and disconnect.
  - `FanOutSpec` is the specification of the fan-out loop.
  - `Run` replays any sequence of requests.
  - The class `ConnectionRegistry` holds the table as a field and
    `MAX_CONNECTIONS` as a constant. Its methods `Register`, `Unregister` and
    `Broadcast` change the table in place. `QueryRoomMode` and `FanOut` are
    the index query and the send loop.

Collaborators are parameters:

- The websocket transport is a function `send: ConnId -> SendOutcome`. Every
  member is sent to at most once per message, so one outcome per id is enough.
- Store faults are a set `fails` of the store calls that raise during one
  invocation. Every other call succeeds.
- The order in which the index returns members is chosen inside
  `QueryRoomMode`. `Broadcast` promises its result for some enumeration of the
  members. `FanOutOverAudience` holds for every enumeration.

Three behaviours of the code worth noting:

- When the delete of a disconnected peer fails, the exception leaves the send
  loop. The message is answered with 500, and the deletes made before it stay
  (app.py:140-150).
- A message with no recipients is answered with the same generic 500 as every
  other message failure (app.py:123-124, 148-150). A successful message
  returns only 200, with no count of the sends attempted.
- Mode 2 has four seats, like modes 1, 4 and 5 (app.py:61). The test at
  tests/test_app.py:44-53 expects two.

## Model

| member | source | states |
|---|---|---|
| `Admission.ParseMode` | app.py:32-37 | Accepts exactly the six names "1".."6" and reads back the named mode. An absent mode or any other text gives None. |
| `Admission.ParseModeName` | app.py:32-50 | The name of every mode passes the mode check, and `int(mode)` gives that mode back. |
| `Admission.RoomIsFull` | app.py:59-73 | The two capacity checks, in their order, mean "count ≥ Capacity(mode)": 4 for modes 1, 2, 4, 5 and 2 for modes 3, 6. |
| `Admission.TrailingNewlineAccepted` | app.py:39 | The pattern as written (Python `$`) accepts "room\n", which is not a room id. |
| `Admission.RoomIdHasNoNewline` | app.py:39 | A room id matched as a whole string contains no newline. |
| `Messages.FormatNatDigits` | app.py:113 | The decimal digits of a natural number are non-empty, all digits, and read back to the number. |
| `Messages.ParseFormatRoundTrip` | app.py:113 | `int()` on the decimal text of any integer gives the integer back. |
| `Messages.ModeTextMatchesNumber` | app.py:108-117 | `int()` reads the decimal text of any integer back as that integer, so a mode sent as text has the same value as the number. |
| `Registry.ModeTextAddressesSameRoom` | app.py:108-117 | A message whose mode is the text of a non-zero number addresses the same room+mode as one whose mode is that number. The number 0 is falsy and refused at app.py:110-111, while the text "0" is not. |
| `Messages.PayloadDefaults` | app.py:105-134 | An absent or empty `operation` becomes "register" and an absent or empty `resultToken` becomes "". Any other value is relayed as given, and so are `userId`, `name` and `result`. |
| `Store.MembersAfterPut` | app.py:77-83 | Writing `c ↦ e` adds `c` to the index entry `e` and removes it from every other entry. |
| `Store.MembersAfterRemove` | app.py:142 | Deleting a set of ids removes exactly those ids from every index entry. |
| `Store.PutKeepsWithinCapacity` | app.py:59-83 | Writing a record whose room+mode has a free seat keeps every room+mode within capacity, for a new id and for an overwritten one. |
| `Store.RemoveKeepsWithinCapacity` | app.py:159 | Deleting records keeps every room+mode within capacity. |
| `Store.RemoveKeepsConsistent` | app.py:159 | Deleting records keeps the registry consistent: every room+mode within capacity, the table within the global maximum, and well-formed room ids. |
| `Registry.RegisterRejectsBadMode` | app.py:32-37 | A mode that is absent or not one of "1".."6" gives 500 with the mode-format reason, whatever the room id. The table is unchanged. |
| `Registry.RegisterRejectsBadRoomId` | app.py:39-44 | With a good mode, a room id that is absent or not of the room id form gives 500 with the room-id-format reason. The table is unchanged. |
| `Registry.RegisterRejectsAtCeiling` | app.py:47-49 | A well-formed request gives 403 once the table holds `MAX_CONNECTIONS` or more. The table is unchanged. |
| `Registry.RegisterRejectsFullRoom` | app.py:59-73 | A well-formed request below the ceiling gives 500 with the capacity reason when the room+mode already holds Capacity(mode) members. The table is unchanged. |
| `Registry.RegisterAdmits` | app.py:75-86 | Otherwise, when no store call fails, the request gives 200 and records `c ↦ (room, mode)`. An earlier record of `c` is overwritten, and every other record is unchanged. |
| `Registry.RegisterChangesOnlyOnSuccess` | app.py:26-93 | A connect request changes the table only when it answers 200, and a 200 means no store call failed. It then records the caller in a room+mode that had a free seat, below the ceiling. Every failure, store faults included, leaves the table unchanged. |
| `Registry.RegisterKeepsConsistent` | app.py:47-86 | Admission keeps every room+mode within capacity and the table within `MAX_CONNECTIONS`. It records only well-formed room ids. |
| `Registry.UnregisterRemovesOnlyCaller` | app.py:156-168 | A disconnect gives 200 and removes exactly the caller's record, leaving every other record unchanged. A failing delete gives 500 and changes nothing. |
| `Registry.UnregisterIdempotent` | app.py:156-161 | Disconnecting twice has the effect of disconnecting once. Disconnecting an id with no record gives 200 and changes nothing. |
| `Registry.UnregisterKeepsConsistent` | app.py:156-161 | A disconnect keeps the registry consistent. |
| `Registry.FanOutStopsAtFailure` | app.py:136-150 | Once a failing delete has ended the loop, the later members are never sent to. |
| `Registry.FanOutSendsInOrder` | app.py:136-144 | The i-th send goes to the i-th member. The loop goes through every member exactly when no disconnected peer's delete fails. Otherwise its last send went to the first such peer, and no earlier peer's delete failed. |
| `Registry.FanOutDeletes` | app.py:136-146 | Over a list without repeats, the loop deletes exactly the disconnected peers it sent to. The one exception is a peer whose delete failed. |
| `Registry.FanOutOverAudience` | app.py:115-146 | Over the room+mode's members in any order, there is one send per member and no other, all with the same payload. The loop completes exactly when no disconnected member's delete fails. It then has deleted exactly the disconnected members and changed nothing else. |
| `Registry.FanOutKeepsConsistent` | app.py:136-144 | The loop only deletes, so it keeps the registry consistent. |
| `Registry.RunKeepsConsistent` | app.py:26-168 | Requests run one at a time from a consistent table keep it consistent. No room+mode ever exceeds its capacity. |
| `Registry.ConsistentBoundsEveryRoom` | app.py:59-73 | In a consistent table, every room+mode of a known mode, including an empty one, holds at most Capacity(mode) members. |
| `Registry.ConnectionRegistry.constructor` | app.py:14 | A registry starts with an empty table and the configured `MAX_CONNECTIONS`. The empty table is within capacity, and consistent whenever `MAX_CONNECTIONS` is not negative. |
| `Registry.ConnectionRegistry.QueryRoomMode` | app.py:53-59 | The index query lists every member of the room+mode exactly once. Its length is the member count. |
| `Registry.ConnectionRegistry.Register` | app.py:26-93 | The connect handler's response and new table are those of `RegisterOutcome`. A consistent table stays consistent. |
| `Registry.ConnectionRegistry.Unregister` | app.py:156-168 | The disconnect handler's response and new table are those of `UnregisterOutcome`. A consistent table stays consistent. |
| `Registry.ConnectionRegistry.FanOut` | app.py:136-144 | The send loop's outcome, its sends and the new table are those of `FanOutSpec` over the listed members. |
| `Registry.ConnectionRegistry.Broadcast` | app.py:99-150 | A message gets 500 with no send and no change in four cases: a required field is falsy, `int(mode)` fails, the query fails, or the room+mode is empty. Otherwise the result is the fan-out over an enumeration of the members, answered 200 if it completed and 500 if a delete stopped it. A consistent table stays consistent. |

## Left out

- Platform plumbing is not modelled: Chalice routing and event wrappers, the boto3 client and `get_table`, `os.environ` configuration, and `app.log` logging. `MAX_CONNECTIONS` is a constructor argument.
- JSON decoding of the message body is not modelled. A message is a record of optional fields, each a string, except `mode`, which is a number or a string. Other JSON types are left out, for instance a boolean or a float `mode`, which Python's `int()` also accepts.
- Messages.ParseInt: `int()` on a string is modelled as an optional sign followed by ASCII decimal digits. Surrounding whitespace, `_` separators and non-ASCII digits, which Python also accepts, are left out.
- The relayed payload is a record. Its serialisation with `json.dumps` is not modelled.
- Response bodies are an enumeration of reasons. The human-readable texts are not modelled.
- The websocket transport is a function from connection id to send outcome. Retries, timeouts and the message actually reaching the peer are not modelled.
- Concurrency is not modelled: requests run one at a time. Scan-then-query-then-put is not atomic in the source, so two concurrent connects can overfill a room. The capacity results hold only for sequential requests.
- DynamoDB pagination and index staleness are not modelled. The count scan and the index query are read as complete and current. The source reads only the first page and does not follow a continuation key.
- Registry.ConnectionRegistry.QueryRoomMode: the order of the query's items is not specified by the store. The model picks one, and `Broadcast` promises its result for some enumeration of the members.
- Store faults are modelled as calls that raise. The exception machinery and the texts of errors are not modelled.

## Findings

| source | as written | input that shows it | evidently intended | confidence | as-written member | corrected member |
|---|---|---|---|---|---|---|
| app.py:39 | `re.match` with a pattern ending in `$` also matches just before one final newline, so the room id check accepts a valid room id followed by a newline. That text is then stored as a distinct room. | roomId `"room\n"` | The room id is exactly 4 to 32 characters from letters, digits, `_` and `-`. | medium; not executed | `Admission.TrailingNewlineAccepted` | `Admission.RoomIdHasNoNewline` |

The rest of the model uses the whole-string form `Admission.IsRoomId`.
