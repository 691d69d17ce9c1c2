# KietChat: verified model of the mesh registry, chat log and chat-screen rules

KietChat is an Android peer-to-peer chat prototype. Almost all of it is
platform glue: Bluetooth sockets, threads, permissions and Compose views. This
project models the parts that are plain logic on lists, and proves what they
promise:

- **`MeshNetwork`** (module `Mesh`, file `mesh.dfy`) is a registry of mesh
  nodes. `addNode` scans the list for the new node's name and appends the node
  only when no registered node has that name. `broadcastMessage` hands one
  message to every registered node in list order. The model is a class with
  a `seq<MeshNode>` field. Its invariant is that node names are unique, and it
  keeps a ghost record of every `addNode` call. The scan is a loop. The
  broadcast is a loop that returns the per-node `receiveMessage` effects as a
  trace of `Delivery` records.
- **`ChatViewModel`** (module `ChatLog`, file `chat_log.dfy`) is an
  append-only chat log. `sendMessage` appends an entry marked as sent by this
  device; `receiveMessage` appends one marked as not. The class keeps a ghost
  record of the calls, and its invariant ties the log to `Logged`, the log that
  those calls produce. The public `messages` view is `ChatViewModel.Messages`,
  which returns the log field itself.
- **`ChatScreen`** (module `ChatScreen`, file `chat_screen.dfy`) holds the
  decision rules of the chat composable:
  - the sender name of a bubble: the first user with the message's address,
    or `"Unknown"`;
  - the "mine" flag: an address comparison with this device's node;
  - the mapping of messages to bubbles;
  - the blank-input guard;
  - the choice between a broadcast and a direct send;
  - the send button's label.

  The text field and the selected user are the fields of a small class. Its
  click handler clears the field after a send.
- `MeshNode` (module `Nodes`) and the `model` package's `ChatMessage` are
  plain records. `Wrappers.Option` stands for Kotlin's nullable types.

`MeshNetwork.kt` and `ChatScreen.kt` use members that `MeshNode` and
`MeshNetwork` do not declare:

- `addNode` compares `it.name == node.name`, but `MeshNode` only has
  `username`. The model compares usernames.
- `broadcastMessage` calls `node.receiveMessage`, which `MeshNode` does not
  declare. The model records each such call as a `Delivery` in the returned
  trace.
- The screen reads `MeshNetwork.messages` and `MeshNetwork.nodes` and calls
  `sendBroadcastMessage` / `sendDirectMessage`, none of which the
  `MeshNetwork` class in MeshNetwork.kt declares. The model takes the user list and the message
  list (`MeshMessage(src, text)`) as parameters. A click returns the requested
  send as an `Outgoing` value instead of calling the network.

Deduplication by sequence number, flood relay and peer display names appear in
none of MeshNetwork.kt, ChatViewModel.kt or ChatScreen.kt, so none is modelled.

## Model

| member | source | states |
|---|---|---|
| `Mesh.WithNode` | app/src/main/java/com/example/kietchat/MeshNetwork.kt:6-10 | the old list is a prefix of the new one; the new list has a node with the added name; the list grows by exactly one, with the node at the end, exactly when the name was absent, and is otherwise unchanged; unique names are preserved |
| `Mesh.WithNodeIdempotent` | app/src/main/java/com/example/kietchat/MeshNetwork.kt:7-8 | adding the same node twice gives the same list as adding it once |
| `Mesh.NameTakenRefused` | app/src/main/java/com/example/kietchat/MeshNetwork.kt:7 | a node whose name is already registered is refused, whatever its address: names alone decide |
| `Mesh.RegisteredUnique` | app/src/main/java/com/example/kietchat/MeshNetwork.kt:4-10 | from the empty list, any sequence of `addNode` calls leaves no two nodes sharing a name |
| `Mesh.RegisteredNames` | app/src/main/java/com/example/kietchat/MeshNetwork.kt:6-10 | after a sequence of `addNode` calls, a name is registered exactly when some call carried it |
| `Mesh.RegisteredFromRequests` | app/src/main/java/com/example/kietchat/MeshNetwork.kt:8 | every registered node was passed to some `addNode` call |
| `Mesh.FirstRequestWins` | app/src/main/java/com/example/kietchat/MeshNetwork.kt:7-8 | the first node added under a name is the one that stays registered |
| `Mesh.FanOutExactlyOnce` | app/src/main/java/com/example/kietchat/MeshNetwork.kt:12-16 | with unique names, a broadcast reaches each registered name exactly once and no unregistered name |
| `Mesh.MeshNetwork.constructor` | app/src/main/java/com/example/kietchat/MeshNetwork.kt:3-4 | a new registry is empty and satisfies the uniqueness invariant |
| `Mesh.MeshNetwork.AddNode` | app/src/main/java/com/example/kietchat/MeshNetwork.kt:6-10 | the name scan and conditional append leave the list as `WithNode` of the old list, and keep names unique |
| `Mesh.MeshNetwork.BroadcastMessage` | app/src/main/java/com/example/kietchat/MeshNetwork.kt:12-16 | one delivery of the message per node, in list order, and exactly one per registered name; the node list is not changed |
| `ChatLog.Logged` | app/src/main/java/com/example/kietchat/ui/theme/ChatViewModel.kt:9-18 | the log holds one entry per call, in call order, each with the call's text and time, marked as sent by this device exactly for sends |
| `ChatLog.LoggedAppendOnly` | app/src/main/java/com/example/kietchat/ui/theme/ChatViewModel.kt:12-18 | later calls never change or reorder earlier entries: the old log is a prefix of the new one |
| `ChatLog.SentCountMatchesSends` | app/src/main/java/com/example/kietchat/ui/theme/ChatViewModel.kt:12-18 | the number of entries marked as sent by this device equals the number of `sendMessage` calls |
| `ChatLog.ChatViewModel.constructor` | app/src/main/java/com/example/kietchat/ui/theme/ChatViewModel.kt:9 | the log starts empty |
| `ChatLog.ChatViewModel.Messages` | app/src/main/java/com/example/kietchat/ui/theme/ChatViewModel.kt:10 | the public view is the log of every call made on the view model, in call order |
| `ChatLog.ChatViewModel.SendMessage` | app/src/main/java/com/example/kietchat/ui/theme/ChatViewModel.kt:12-14 | appends exactly one entry with the given text, marked as sent by this device, for any text, empty or repeated |
| `ChatLog.ChatViewModel.ReceiveMessage` | app/src/main/java/com/example/kietchat/ui/theme/ChatViewModel.kt:16-18 | appends exactly one entry with the given text, marked as not sent by this device, for any text |
| `ChatScreen.FirstWithAddress` | app/src/main/java/com/example/kietchat/ui/theme/ChatScreen.kt:31 | the position of the first user with the address: no earlier user has it, and the position is past the end only when no user has it |
| `ChatScreen.FindByAddress` | app/src/main/java/com/example/kietchat/ui/theme/ChatScreen.kt:31 | a user is found exactly when some user has the address, and the one found is the first such user |
| `ChatScreen.SenderName` | app/src/main/java/com/example/kietchat/ui/theme/ChatScreen.kt:31 | the name of the first user whose address equals the message's source; `"Unknown"` when no user's address matches |
| `ChatScreen.ToBubble` | app/src/main/java/com/example/kietchat/ui/theme/ChatScreen.kt:30-33 | a bubble shows `SenderName` of the message's source as its sender, keeps the message text unchanged, and is "mine" exactly when the source equals this node's address, whatever the user list says |
| `ChatScreen.Bubbles` | app/src/main/java/com/example/kietchat/ui/theme/ChatScreen.kt:30-34 | messages map one-to-one, in order, to bubbles |
| `ChatScreen.Dispatch` | app/src/main/java/com/example/kietchat/ui/theme/ChatScreen.kt:47-56 | nothing is sent exactly when the input is blank; otherwise the input is sent unchanged, as a broadcast exactly when no user is selected and else as a direct message to the selected user, never both |
| `ChatScreen.SendButtonLabel` | app/src/main/java/com/example/kietchat/ui/theme/ChatScreen.kt:59 | the label is `"Send All"` exactly when no user is selected, otherwise `"Send → "` followed by the selected user's name |
| `ChatScreen.ChatScreenState.constructor` | app/src/main/java/com/example/kietchat/ui/theme/ChatScreen.kt:18-19 | the input starts empty and no user is selected |
| `ChatScreen.ChatScreenState.OnValueChange` | app/src/main/java/com/example/kietchat/ui/theme/ChatScreen.kt:42 | the input becomes the typed text |
| `ChatScreen.ChatScreenState.OnSendClick` | app/src/main/java/com/example/kietchat/ui/theme/ChatScreen.kt:47-57 | the click sends what `Dispatch` decides; blank input stays as it is, and after a send the input is `""` |

## Left out

- Bluetooth sockets, threads, permission prompts and view construction in `MainActivity.kt` are I/O. `BleManager.kt` and `BleService.kt` are a thin platform wrapper and constants. `SplashScreen.kt`, `AboutScreen.kt` and `Theme.kt` are animation and static UI. None of these is part of this model.
- The timestamp of the `model` package's `ChatMessage` is read from the wall clock and formatted as "HH:mm" for the device locale. Here the caller passes it to `SendMessage` and `ReceiveMessage` as a string.
- `MeshNode`'s default address is drawn at random from 10000..99999. Here the address is always given, and its range is not constrained.
- The effect of `node.receiveMessage` is not modelled: the broadcast only records which node receives which message.
- The network calls `sendBroadcastMessage` and `sendDirectMessage` are not modelled. `OnSendClick` returns the requested send.
- `scope.launch` runs the send and the reset of the field later, in a coroutine. The model runs them at once, so it does not capture an edit made between the click and the coroutine.
- No code in `ChatScreen.kt` assigns `selectedUser` after it starts as `null`. The class keeps it as a field that nothing changes, and `Dispatch` states the rule for both cases.
- Compose rendering is not modelled: the `LazyColumn`, the bubble colours, the `"sender: text"` bubble text and the `"KIETchat - name (N online)"` header.
- Messages: Kotlin's `messages` getter returns a live read-only view of the mutable list, so a caller that keeps it sees later appends. A Dafny `seq` is a snapshot, so the model does not capture that aliasing.
- `IsWhitespace` follows the Unicode 6.3 and later classification. In it U+180E is no longer a space separator.
