# Chat relay dispatcher, modelled in Dafny

This project models the dispatch engine of a small WebSocket chat server
(`internal/handlers/handlers.go`). All I/O is removed. The model keeps four parts:

- **Registry.** `clients` maps each connection to its displayed username. A newly
  upgraded connection is registered with the empty username (`Registry.Connect`).
- **Roster.** `getUserList` collects the non-blank usernames in map iteration order
  and sorts them (`Registry.CollectNames`, `Registry.GetUserList`). Its meaning is
  `Registry.Roster`: the unique sorted arrangement of the multiset of non-blank names.
- **Escaper.** A five-entry replacement table turns `&`, `'`, `<`, `>` and `"` into
  entities and copies every other character (`Escape.Escape`).
- **Dispatcher and broadcaster.** One iteration of `ListenWsChannel` is
  `Dispatch.Next` (reference) and `Dispatch.Dispatch` (the loop body, which calls
  `getUserList` and the broadcaster). The broadcaster writes the response to every
  registered connection and evicts those whose write fails (`Broadcast.Broadcaster`).

Connections are opaque ids (`ConnId`) and events are a datatype. Write failures are
an input: the set of connections whose write fails during that broadcast. Go's
randomised map iteration becomes an arbitrary choice (`:|`) in the methods. Every
result is stated as a set, a map or a sorted sequence, so it does not depend on the
order.

The response variable lives outside the dispatcher loop, and each event assigns only
some of its fields. The dispatcher state is therefore the pair (registry, last
response). Two consequences are kept:

- a `list_users` response still carries the `Message` of the last broadcast;
- a `broadcast` response still carries the last `ConnectedUsers`.

The roster of a `username` or `left` response is computed before the broadcaster
evicts anyone. A connection whose write fails in that same broadcast can therefore
still appear in the roster the others receive.

The dispatcher's actions are `"username"`, `"left"` and `"broadcast"`; any other
action is ignored. The response is not reset between events.

`sort.Strings` compares bytes. Usernames arrive as decoded JSON, so they are valid
UTF-8, and UTF-8 preserves code-point order. The model's `Lex.Le` therefore compares
characters by code point.

## Model

| member | source | states |
|---|---|---|
| Escape.EscapeChar | internal/handlers/handlers.go:35-47 | each of the five special characters becomes an entity starting with `&`; every other character maps to itself; no entry contains `'`, `<`, `>` or `"` |
| Escape.Escape | internal/handlers/handlers.go:156-158 | the escaped text is at least as long as the input and contains none of `'`, `<`, `>`, `"` |
| Escape.EscapeConcat | internal/handlers/handlers.go:35-47 | escaping is per character: escape(a + b) == escape(a) + escape(b) |
| Escape.EscapeFixedPoint | internal/handlers/handlers.go:35-47 | a string is unchanged by escaping if and only if it has none of the five special characters; with one of them, the output is strictly longer |
| Escape.EscapeRoundTrip | internal/handlers/handlers.go:35-47 | decoding the five entities recovers the original text, so escaping loses no information |
| Escape.EscapeInjective | internal/handlers/handlers.go:156-158 | two different chat lines never escape to the same text |
| Lex.LeLexicographic | internal/handlers/handlers.go:168 | the comparison `sort.Strings` sorts by: `a` sorts no later than `b` if and only if `a` is a prefix of `b` or, at the first position where they differ, `a` has the smaller character |
| Lex.LeAntisymmetric | internal/handlers/handlers.go:168 | the username order is antisymmetric |
| Lex.LeTransitive | internal/handlers/handlers.go:168 | the username order is transitive |
| Lex.LeTotal | internal/handlers/handlers.go:168 | any two usernames are comparable |
| Lex.SortStrings | internal/handlers/handlers.go:168 | the sort's result is sorted and is a permutation of its input |
| Lex.SortedUnique | internal/handlers/handlers.go:168 | two sorted permutations of the same multiset are equal, so the roster does not depend on the sort algorithm or the iteration order |
| Registry.Connect | internal/handlers/handlers.go:91-92 | registering a connection adds its key with the blank username and leaves every other entry unchanged |
| Registry.ConnectKeepsRoster | internal/handlers/handlers.go:92 | a fresh connection registered with `""` contributes nothing to the names or the roster |
| Registry.Names | internal/handlers/handlers.go:163-167 | the collected names never include the blank username |
| Registry.NamesRemove | internal/handlers/handlers.go:163-167 | the collected names do not depend on which connection is visited first: any one connection contributes its non-blank name |
| Registry.NamesMembership | internal/handlers/handlers.go:162-167 | a username is collected if and only if it is non-blank and some registered connection displays it |
| Registry.NamesCount | internal/handlers/handlers.go:162-167 | a non-blank username is collected as many times as connections display it, so duplicates are kept |
| Registry.Roster | internal/handlers/handlers.go:161-170 | the roster is sorted and is a permutation of the non-blank usernames |
| Registry.RosterUnique | internal/handlers/handlers.go:161-170 | any sorted permutation of the non-blank usernames is the roster |
| Registry.CollectNames | internal/handlers/handlers.go:162-167 | the collection loop, visiting the connections in any order, yields exactly the multiset of non-blank usernames |
| Registry.GetUserList | internal/handlers/handlers.go:161-170 | `getUserList` returns a sorted list without blank names whose multiset is that of the registry's non-blank usernames, and equal to the roster |
| Broadcast.Prune | internal/handlers/handlers.go:176-180 | after a broadcast, the registry's keys are the old keys minus the failing ones, and surviving entries keep their usernames |
| Broadcast.Broadcaster | internal/handlers/handlers.go:173-182 | every registered connection is attempted exactly once; the registry loses exactly the failing connections; every non-failing connection receives the response, whatever fails before it |
| Dispatch.ChatLineSplit | internal/handlers/handlers.go:149 | the chat line `"%s: %s"` is the username, then `": "`, then the message, so cutting it after as many characters as the username has, and skipping the separator, recovers both; the line alone does not determine where the username ends |
| Dispatch.Apply | internal/handlers/handlers.go:129-144 | `"username"` maps the sender to its username, inserting the key if absent; `"left"` removes the sender; other actions leave the registry alone; no other entry changes |
| Dispatch.Next | internal/handlers/handlers.go:124-152 | per action: the registry after the broadcast, the recipients, the roster (sorted, the names of the edited registry), the escaped chat line, which response fields are kept from the previous event, and that an unknown action changes nothing and sends nothing |
| Dispatch.Dispatch | internal/handlers/handlers.go:127-151 | the loop body, calling `getUserList` and the broadcaster, produces the reference transition; its writes go once to each connection of the edited registry, and none for an unknown action |
| Dispatch.ListenWsChannel | internal/handlers/handlers.go:124-152 | processing the channel's events in order yields the reference run |
| Dispatch.NextKeepsWellFormed | internal/handlers/handlers.go:125-151 | every step keeps the response well formed: sorted roster without blanks, no markup in the message, message type never set |
| Dispatch.RunKeepsWellFormed | internal/handlers/handlers.go:124-152 | every response along a run from a well-formed state is well formed |
| Dispatch.DispatcherResponsesWellFormed | internal/handlers/handlers.go:124-126 | the dispatcher starts from the zero response, so every response it sends is well formed |
| Dispatch.LeftIdempotent | internal/handlers/handlers.go:139-144 | with no write failures, two identical `"left"` events leave the same registry and response as one |
| Dispatch.UsernameRegistrySize | internal/handlers/handlers.go:132 | without failures, `"username"` grows the registry by one exactly when the sender was not registered |
| Dispatch.LeftRegistrySize | internal/handlers/handlers.go:141 | without failures, `"left"` shrinks the registry by one exactly when the sender was registered |
| Dispatch.JoinThenLeave | internal/handlers/handlers.go:91-144 | with no write failures, a connection registered with `""` that announces a name and then leaves takes the registry back to the one it was registered into, and the published roster is the one it found on registering |
| Dispatch.LeftDropsName | internal/handlers/handlers.go:139-144 | after `"left"`, a name no other connection displays is absent from the published roster |
| Dispatch.UsernameRosterCounts | internal/handlers/handlers.go:130-136 | after `"username"`, each name appears in the roster once per connection displaying it, whichever writes then fail |
| Dispatch.Scenario | internal/handlers/handlers.go:124-152 | alice joins, bob joins, alice says "hi", bob leaves: the run ends with only alice registered and a `list_users` response with roster ["alice"] that still carries "alice: hi" |

## Left out

- HTTP upgrade, `WriteJSON`/`ReadJSON` and JSON encoding are foreign I/O. A write is modelled only as success or failure, through the `failing` set.
- The greeting that `WsEndpoint` sends, and the logging of its failure, are I/O. Only the registration with a blank username is modelled.
- Broadcast.Broadcaster: does not cover a connection whose upgrade failed. `WsEndpoint` only logs the failed upgrade and still registers a connection wrapping a nil socket with `""`. The greeting written to it panics, and the HTTP server recovers that panic, so the entry stays registered. At the next broadcast, writing to it panics again rather than returning an error, and nothing in the dispatcher goroutine recovers that panic, so delivery stops and the process ends. The model treats every registered connection as a live socket whose write either succeeds or fails with an error, so "every non-failing connection receives the response" holds only when no such nil connection is registered.
- `WsListen` is left out: its goroutine, its `recover`, and its busy loop on read errors. These exist for concurrency. A failed read enqueues nothing, but the payload variable is reused across reads: fields a failed read did decode, and fields a later message leaves out, keep their values and can appear in that connection's next event. `ListenWsChannel` accepts any event, so this is covered. The channel is modelled as the ordered sequence of events given to `ListenWsChannel`, and that method processes a finite prefix of it.
- The unsynchronised write to `clients` in `WsEndpoint` races with the dispatcher. This concurrency is not modelled: `Connect` is an ordinary sequential operation on the registry.
- `client.Close()` in the broadcaster is I/O. Eviction from the registry is modelled.
- Template rendering (`Home`, `renderPage`, `views`) and `cmd/web/main.go` are library wrappers and process start-up.
- Send order is not modelled. Go's map iteration order is an arbitrary choice, and results are stated as sets and maps; `attempts` only records that each connection is tried once.
- Dispatch.Next: the roster is a Dafny sequence, so the model does not tell a nil slice from an empty one. The Go code sends `null`, not `[]`, when nobody has a name.
- Lex.Le: compares code points, not the bytes `sort.Strings` compares. The two orders agree on valid UTF-8, which is all that decoded JSON strings can hold.
