/** Values the conversation view works with: message documents as the store
    delivers them and the message records the view keeps after attaching the
    document id (src/ChatRoom.js builds them as `{id: doc.id, ...doc.data()}`). */
module Model {

  datatype Option<+T> = None | Some(value: T)

  /** Store-assigned document identifiers and user identifiers are strings. */
  type Id = string
  type UserId = string

  /** A creation time reduced to what the render rules read through `Date`:
      the local calendar day (`getFullYear`, `getMonth`, `getDate`) and the
      minute of the hour (`getMinutes`). The query bounds, the separator keys
      and the formatted labels use more of the instant; the model drops it. */
  datatype Stamp = Stamp(year: int, month: int, day: int, minute: int)

  /** The three fields a message document stores. `createdAt` is None while the
      server timestamp is still pending, or when it is missing. */
  datatype MessageData = MessageData(text: string, uid: UserId, createdAt: Option<Stamp>)

  /** A document of the `messages` sub-collection: its id and its data. */
  datatype Doc = Doc(id: Id, data: MessageData)

  /** A message as the view keeps it: the document id next to the data fields. */
  datatype Message = Message(id: Id, text: string, uid: UserId, createdAt: Option<Stamp>)

  /** `{id: doc.id, ...doc.data()}` */
  function FromDoc(d: Doc): Message
  {
    Message(d.id, d.data.text, d.data.uid, d.data.createdAt)
  }

  /** The records built from a run of documents, one per document, in the
      order the documents came (defined by pushing onto the end, as the
      `forEach`/`push` loops of the view do). */
  function FromDocs(ds: seq<Doc>): (ms: seq<Message>)
    ensures |ms| == |ds|
    ensures forall k :: 0 <= k < |ds| ==> ms[k] == FromDoc(ds[k])
  {
    if ds == [] then [] else FromDocs(ds[..|ds| - 1]) + [FromDoc(ds[|ds| - 1])]
  }

  /** No two messages of the list share an id. */
  predicate UniqueIds(ms: seq<Message>)
  {
    forall i, j :: 0 <= i < j < |ms| ==> ms[i].id != ms[j].id
  }
}
