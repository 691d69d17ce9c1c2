/**
 * The decision rules inside the `ChatScreen` composable: how each mesh message
 * becomes a chat bubble (sender lookup by address, "mine" by address), the
 * blank-input guard, the choice between a broadcast and a direct send, and
 * the send button's label. Rendering and coroutines are not modelled.
 */
module ChatScreen {

  import opened Wrappers
  import opened Nodes

  /** A message as the screen reads it from the mesh: the sender's address and the text. */
  datatype MeshMessage = MeshMessage(src: int, text: string)

  /** The bubble record `ChatMessage(sender, text, isMine)` declared beside the screen. */
  datatype ChatMessage = ChatMessage(sender: string, text: string, isMine: bool)

  /** The sender shown when no known user has the message's address. */
  const UnknownSender: string := "Unknown"

  /**
   * The position of the first user whose address is `address`, or `|users|`
   * when there is none.
   */
  function FirstWithAddress(users: seq<MeshNode>, address: int): (k: nat)
    ensures k <= |users|
    ensures forall j :: 0 <= j < k ==> users[j].unicastAddress != address
    ensures k < |users| ==> users[k].unicastAddress == address
  {
    if users == [] then 0
    else if users[0].unicastAddress == address then 0
    else 1 + FirstWithAddress(users[1..], address)
  }

  /** `users.find { it.unicastAddress == address }`: the first user with the address, if any. */
  function FindByAddress(users: seq<MeshNode>, address: int): (r: Option<MeshNode>)
    ensures r.Some? <==> exists i :: 0 <= i < |users| && users[i].unicastAddress == address
    ensures r.Some? ==> r.value == users[FirstWithAddress(users, address)]
  {
    var k := FirstWithAddress(users, address);
    if k < |users| then Some(users[k]) else None
  }

  /**
   * The name shown on a bubble: the name of the first user with the message's
   * address, or "Unknown" when no user has it.
   */
  function SenderName(users: seq<MeshNode>, src: int): (name: string)
    ensures (forall i :: 0 <= i < |users| ==> users[i].unicastAddress != src) ==> name == UnknownSender
    ensures forall i :: 0 <= i < |users| && users[i].unicastAddress == src &&
                        (forall j :: 0 <= j < i ==> users[j].unicastAddress != src) ==>
                          name == users[i].username
  {
    match FindByAddress(users, src)
    case Some(user) => user.username
    case None => UnknownSender
  }

  /**
   * The bubble for one message: it keeps the text, shows the looked-up sender,
   * and is "mine" exactly when the message comes from this device's address,
   * whoever the user list names as its sender.
   */
  function ToBubble(users: seq<MeshNode>, myNode: MeshNode, msg: MeshMessage): (b: ChatMessage)
    ensures b.text == msg.text
    ensures b.isMine <==> msg.src == myNode.unicastAddress
    ensures b.sender == SenderName(users, msg.src)
  {
    ChatMessage(SenderName(users, msg.src), msg.text, msg.src == myNode.unicastAddress)
  }

  /** The bubble list: one bubble per message, in message order. */
  function Bubbles(users: seq<MeshNode>, myNode: MeshNode, messages: seq<MeshMessage>): (r: seq<ChatMessage>)
    ensures |r| == |messages|
    ensures forall i :: 0 <= i < |messages| ==> r[i] == ToBubble(users, myNode, messages[i])
  {
    if messages == [] then []
    else [ToBubble(users, myNode, messages[0])] + Bubbles(users, myNode, messages[1..])
  }

  /**
   * Kotlin's `Char.isWhitespace()` on the JVM: Java's `isWhitespace` or
   * `isSpaceChar` — the controls tab through carriage return and the four
   * information separators, and every space, line and paragraph separator of
   * Unicode, the no-break spaces included.
   */
  predicate IsWhitespace(c: char)
  {
    || '\t' <= c <= '\r'
    || '\U{1C}' <= c <= '\U{1F}'
    || c == ' '
    || c == '\U{A0}'
    || c == '\U{1680}'
    || '\U{2000}' <= c <= '\U{200A}'
    || c == '\U{2028}' || c == '\U{2029}'
    || c == '\U{202F}' || c == '\U{205F}'
    || c == '\U{3000}'
  }

  /** Kotlin's `isBlank()`: empty, or whitespace only. */
  predicate IsBlank(s: string)
  {
    forall i :: 0 <= i < |s| ==> IsWhitespace(s[i])
  }

  /** What a click on the send button asks the mesh to do. */
  datatype Outgoing = Broadcast(text: string) | Direct(text: string, to: MeshNode)

  /**
   * The dispatch rule of the send button: nothing for blank input; otherwise
   * the input, unchanged, as a broadcast when no user is selected and as a
   * direct message to the selected user when one is.
   */
  function Dispatch(input: string, selectedUser: Option<MeshNode>): (r: Option<Outgoing>)
    ensures r.None? <==> IsBlank(input)
    ensures r.Some? ==> r.value.text == input
    ensures r.Some? ==> (r.value.Broadcast? <==> selectedUser.None?)
    ensures r.Some? && r.value.Direct? ==> selectedUser == Some(r.value.to)
  {
    if IsBlank(input) then None
    else if selectedUser.None? then Some(Broadcast(input))
    else Some(Direct(input, selectedUser.value))
  }

  /**
   * The send button's label: "Send All" exactly when no user is selected,
   * otherwise "Send → " followed by the selected user's name.
   */
  function SendButtonLabel(selectedUser: Option<MeshNode>): (caption: string)
    ensures caption == "Send All" <==> selectedUser.None?
    ensures selectedUser.Some? ==> caption == "Send → " + selectedUser.value.username
  {
    match selectedUser
    case None => "Send All"
    case Some(user) =>
      var caption := "Send → " + user.username;
      assert caption[5] != "Send All"[5];
      caption
  }

  /** The screen's remembered state: the text field and the selected user. */
  class ChatScreenState {
    var input: string
    var selectedUser: Option<MeshNode>

    constructor ()
      ensures input == "" && selectedUser == None
    {
      input := "";
      selectedUser := None;
    }

    /** `onValueChange`: the text field shows what the user typed. */
    method OnValueChange(text: string)
      modifies this`input
      ensures input == text
    {
      input := text;
    }

    /**
     * The send button's `onClick`: blank input sends nothing and stays as it
     * is; otherwise the input goes out as `Dispatch` decides and the field is
     * cleared.
     */
    method OnSendClick() returns (sent: Option<Outgoing>)
      modifies this`input
      ensures sent == Dispatch(old(input), selectedUser)
      ensures IsBlank(old(input)) ==> input == old(input)
      ensures !IsBlank(old(input)) ==> input == ""
    {
      sent := None;
      if !IsBlank(input) {
        if selectedUser == None {
          sent := Some(Broadcast(input));
        } else {
          sent := Some(Direct(input, selectedUser.value));
        }
        input := "";
      }
    }
  }
}
