/** The chat screen of one two-party conversation: the message list it shows, the text
    field's buffer, and the events that change them. Each asynchronous event (a history
    response, a failed insert, a realtime notification) is one atomic method call. */
module Chat {
  import opened Results
  import opened Messages
  import opened MessageList

  /** Why the history query produced no rows: transport, authorisation or decoding. */
  datatype FetchError = FetchFailed

  /** Why a record could not be decoded: a date string that none of the formatters
      accepted, or any other malformed field. */
  datatype DecodeError = CannotDecodeDate(text: string) | MalformedRecord

  /** What the failure handler of an insert captured at send time: the placeholder's id
      and the text that was in the input field. */
  datatype PendingSend = PendingSend(tempId: int, text: string)

  /** The custom date decoding strategy: try each formatter in turn (the chat passes
      ISO 8601 with fractional seconds, then ISO 8601 without) and take the first date
      any of them produces; fail only when every one of them fails. */
  method DecodeDate(text: string, formatters: seq<string -> Option<Timestamp>>)
    returns (r: Result<Timestamp, DecodeError>)
    ensures r.Ok? ==> exists k :: 0 <= k < |formatters| && formatters[k](text) == Some(r.value) &&
                        forall j :: 0 <= j < k ==> formatters[j](text) == None
    ensures r.Err? <==> forall k :: 0 <= k < |formatters| ==> formatters[k](text) == None
    ensures r.Err? ==> r.error == CannotDecodeDate(text)
  {
    var k := 0;
    while k < |formatters|
      invariant 0 <= k <= |formatters|
      invariant forall j :: 0 <= j < k ==> formatters[j](text) == None
    {
      var parsed := formatters[k](text);
      if parsed.Some? {
        return Ok(parsed.value);
      }
      k := k + 1;
    }
    return Err(CannotDecodeDate(text));
  }

  class ChatView {
    const currentUserId: UserId
    const recipientId: UserId
    var messages: seq<Message>
    var input: string

    constructor (currentUserId: UserId, recipientId: UserId)
      ensures this.currentUserId == currentUserId && this.recipientId == recipientId
      ensures messages == [] && input == ""
    {
      this.currentUserId := currentUserId;
      this.recipientId := recipientId;
      messages := [];
      input := "";
    }

    /** The user edits the text field bound to the input buffer. */
    method EditInput(text: string)
      modifies this
      ensures input == text && messages == old(messages)
    {
      input := text;
    }

    /** The history query answered: its rows replace the list wholesale; on an error the
        list stays as it was. */
    method LoadHistory(fetched: Result<seq<Message>, FetchError>)
      modifies this
      ensures messages == if fetched.Ok? then fetched.value else old(messages)
      ensures input == old(input)
    {
      if fetched.Ok? {
        messages := fetched.value;
      }
    }

    /** The send button: nothing happens on an empty input. Otherwise a placeholder with a
        freely chosen id in the pending range is appended, the input is cleared, and what
        the insert's failure handler needs is returned. */
    method SendMessage(now: Timestamp) returns (sent: Option<PendingSend>)
      modifies this
      ensures old(input) == "" ==> sent == None && messages == old(messages) && input == old(input)
      ensures old(input) != "" ==>
                sent.Some? && sent.value.text == old(input) &&
                PendingIdMin <= sent.value.tempId <= PendingIdMax &&
                messages == old(messages) + [Message(sent.value.tempId, old(input), currentUserId, recipientId, now)] &&
                input == ""
    {
      if input == "" {
        return None;
      }
      var tempId :| PendingIdMin <= tempId <= PendingIdMax;
      var temp := Message(tempId, input, currentUserId, recipientId, now);
      messages := messages + [temp];
      var tempText := input;
      input := "";
      sent := Some(PendingSend(tempId, tempText));
    }

    /** The insert of `p` failed: every entry with its placeholder id goes, and the text
        goes back into the input field. */
    method SendFailed(p: PendingSend)
      modifies this
      ensures messages == WithoutId(old(messages), p.tempId)
      ensures input == p.text
    {
      messages := WithoutId(messages, p.tempId);
      input := p.text;
    }

    /** A realtime insert notification. An undecodable record or a message of another
        conversation is dropped; otherwise every pending entry is swept and the message is
        appended unless its id is still listed. */
    method ReceiveInsert(event: Result<Message, DecodeError>)
      modifies this
      ensures messages == if event.Ok? && InConversation(event.value, currentUserId, recipientId)
                          then Reconcile(old(messages), event.value)
                          else old(messages)
      ensures input == old(input)
    {
      if event.Err? {
        return;
      }
      var m := event.value;
      if InConversation(m, currentUserId, recipientId) {
        messages := Confirmed(messages);
        if !HasId(messages, m.id) {
          messages := messages + [m];
        }
      }
    }
  }

  /** Sending while offline: when nothing listed has an id in the pending range, a send
      followed by the failure of its insert leaves the list and the input as they were. */
  method OfflineSendRestores(v: ChatView, now: Timestamp)
    requires v.input != ""
    requires forall i :: 0 <= i < |v.messages| ==> !IsPending(v.messages[i])
    modifies v
    ensures v.messages == old(v.messages) && v.input == old(v.input)
  {
    ghost var before := v.messages;
    var sent := v.SendMessage(now);
    var t := v.messages[|v.messages| - 1];
    assert v.messages == before + [t];
    RollbackUndoesSend(before, t);
    v.SendFailed(sent.value);
  }

  /** Sending followed by the server's echo of the message: the placeholder is replaced by
      the confirmed row, which ends up last, and every earlier entry is kept. */
  method SendThenConfirm(v: ChatView, now: Timestamp, echo: Message)
    requires v.input != ""
    requires forall i :: 0 <= i < |v.messages| ==> !IsPending(v.messages[i])
    requires !HasId(v.messages, echo.id)
    requires echo.senderId == v.currentUserId && echo.receiverId == v.recipientId
    modifies v
    ensures v.messages == old(v.messages) + [echo] && v.input == ""
  {
    ghost var before := v.messages;
    var sent := v.SendMessage(now);
    var t := v.messages[|v.messages| - 1];
    assert v.messages == before + [t];
    RemoveAllAppend(before, [t], IsPending);
    RemoveAllNoop(before, IsPending);
    assert [t][1..] == [];
    assert Confirmed(v.messages) == before;
    v.ReceiveInsert(Ok(echo));
  }
}
