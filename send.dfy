/** The send pipeline of the chat room (`sendMessage`): the form value is
    trimmed, blank input is dropped, and otherwise one message object goes
    into a batch twice, as a new document of the `messages` sub-collection and
    as the conversation's `lastMessage`, and the batch commits all or nothing. */
module SendPipeline {
  import opened Model
  import opened Trimming

  datatype SendOutcome =
    | Dropped       // the text was blank after trimming: no batch, no write
    | Committed     // the batch committed: both writes are visible
    | CommitFailed  // the commit was rejected: neither write is visible

  /** The store-side state one send touches: the conversation's message
      documents in write order, and its `lastMessage` summary. */
  class Conversation {
    var messages: seq<Doc>
    var lastMessage: Option<MessageData>

    constructor (messages: seq<Doc>, lastMessage: Option<MessageData>)
      ensures this.messages == messages && this.lastMessage == lastMessage
    {
      this.messages := messages;
      this.lastMessage := lastMessage;
    }

    /** The summary is the data of the newest written message. */
    predicate Summarized()
      reads this
    {
      messages != [] && lastMessage == Some(messages[|messages| - 1].data)
    }

    /** `sendMessage` for the form value `formValue` by user `cuid`. The store
        supplies the new document's id (`newId`, a fresh auto-id, unused so far), the time `serverTime` that it
        puts in place of `serverTimestamp()` at commit, and whether the commit
        succeeds. `form` is the form value afterwards: cleared only after a
        commit that went through. */
    method SendMessage(formValue: string, cuid: UserId, newId: Id, serverTime: Stamp, commitSucceeds: bool)
      returns (outcome: SendOutcome, form: string)
      requires forall d :: d in messages ==> d.id != newId
      modifies this
      ensures outcome == Dropped <==> AllSpace(formValue)
      ensures outcome == Committed <==> !AllSpace(formValue) && commitSucceeds
      ensures outcome != Committed ==>
        messages == old(messages) && lastMessage == old(lastMessage) && form == formValue
      ensures outcome == Committed ==>
        var sent := MessageData(Trim(formValue), cuid, Some(serverTime));
        && messages == old(messages) + [Doc(newId, sent)]
        && lastMessage == Some(sent)
        && form == ""
      ensures outcome == Committed ==> Summarized()
    {
      var text := Trim(formValue);
      TrimEmptyIffAllSpace(formValue);
      if text == "" {
        return Dropped, formValue;
      }
      var messageObject := MessageData(text, cuid, Some(serverTime));
      if !commitSucceeds {
        return CommitFailed, formValue;
      }
      // both writes of the batch become visible together
      messages, lastMessage := messages + [Doc(newId, messageObject)], Some(messageObject);
      outcome, form := Committed, "";
    }
  }
}
