/**
 * The chat log of `ChatViewModel.kt`: an append-only list of `ChatMessage`
 * records (the `model` package's type), to which a local send adds an entry
 * marked as sent by this device and a receive adds one marked as not.
 */
module ChatLog {

  /**
   * The "HH:mm" text the source formats from the wall clock. The clock is not
   * part of this model: callers supply the time.
   */
  type Timestamp = string

  datatype ChatMessage = ChatMessage(text: string, isSentByMe: bool, timestamp: Timestamp)

  /** One call made on the view model. */
  datatype Call = Send(text: string, at: Timestamp) | Receive(text: string, at: Timestamp)

  /** The entry a call appends. */
  function EntryFor(call: Call): ChatMessage
  {
    match call
    case Send(t, at) => ChatMessage(t, true, at)
    case Receive(t, at) => ChatMessage(t, false, at)
  }

  /**
   * The log after the calls `calls`, in order, on a new view model: one entry
   * per call, in call order, with the call's text and time, tagged as sent by
   * this device exactly for sends.
   */
  function Logged(calls: seq<Call>): (r: seq<ChatMessage>)
    ensures |r| == |calls|
    ensures forall i :: 0 <= i < |calls| ==>
              && r[i].text == calls[i].text
              && r[i].timestamp == calls[i].at
              && (r[i].isSentByMe <==> calls[i].Send?)
  {
    if calls == [] then []
    else Logged(calls[..|calls| - 1]) + [EntryFor(calls[|calls| - 1])]
  }

  /** Later calls only add entries after those already logged: earlier entries keep their place and contents. */
  lemma LoggedAppendOnly(calls: seq<Call>, more: seq<Call>)
    ensures Logged(calls + more)[..|calls|] == Logged(calls)
  {
  }

  /** The number of entries sent by this device. */
  function SentCount(log: seq<ChatMessage>): nat
  {
    if log == [] then 0
    else SentCount(log[..|log| - 1]) + (if log[|log| - 1].isSentByMe then 1 else 0)
  }

  /** The number of send calls. */
  function SendCalls(calls: seq<Call>): nat
  {
    if calls == [] then 0
    else SendCalls(calls[..|calls| - 1]) + (if calls[|calls| - 1].Send? then 1 else 0)
  }

  /** The log holds exactly as many entries sent by this device as there were send calls. */
  lemma {:induction false} SentCountMatchesSends(calls: seq<Call>)
    ensures SentCount(Logged(calls)) == SendCalls(calls)
  {
    if calls != [] {
      var n := |calls| - 1;
      SentCountMatchesSends(calls[..n]);
      var log := Logged(calls);
      assert log[..|log| - 1] == Logged(calls[..n]);
    }
  }

  /** `ChatViewModel`: `messages` is the source's private `_messages` list. */
  class ChatViewModel {
    var messages: seq<ChatMessage>
    /** Every call made on this view model, in order. */
    ghost var calls: seq<Call>

    ghost predicate Valid()
      reads this
    {
      messages == Logged(calls)
    }

    constructor ()
      ensures Valid()
      ensures messages == [] && calls == []
    {
      messages := [];
      calls := [];
    }

    /** The public read-only `messages` view: the current contents of the log. */
    function Messages(): (r: seq<ChatMessage>)
      reads this
      requires Valid()
      ensures r == Logged(calls)
    {
      messages
    }

    /** `sendMessage`: appends `text`, marked as sent by this device, whatever the text. */
    method SendMessage(text: string, now: Timestamp)
      requires Valid()
      modifies this
      ensures Valid()
      ensures calls == old(calls) + [Send(text, now)]
      ensures messages == old(messages) + [ChatMessage(text, true, now)]
    {
      messages := messages + [ChatMessage(text, true, now)];
      calls := calls + [Send(text, now)];
      assert calls[..|calls| - 1] == old(calls);
    }

    /** `receiveMessage`: appends `text`, marked as not sent by this device, whatever the text. */
    method ReceiveMessage(text: string, now: Timestamp)
      requires Valid()
      modifies this
      ensures Valid()
      ensures calls == old(calls) + [Receive(text, now)]
      ensures messages == old(messages) + [ChatMessage(text, false, now)]
    {
      messages := messages + [ChatMessage(text, false, now)];
      calls := calls + [Receive(text, now)];
      assert calls[..|calls| - 1] == old(calls);
    }
  }
}
