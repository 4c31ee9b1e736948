/** The timeline entities: the items the sources produce and the components render. */
module Items {
  import opened Wrappers

  /** One entry of a message's `json.attachments` array, as the message card reads it. */
  datatype Attachment = Attachment(
    contentType: string,
    width: int,
    height: int,
    path: string,
    localKey: string,
    iv: string,
    size: int)

  /** The parsed `json` column of a message: only its `attachments` array is ever read. */
  datatype MessageJson = MessageJson(attachments: Option<seq<Attachment>>)

  /** The `content` of a Signal timeline item; `msgType` is the row's `type` column. */
  datatype SignalContent = SignalContent(
    direction: string,
    body: Option<string>,
    msgType: string,
    conversationId: Option<string>,
    hasVisualMediaAttachments: Option<int>,
    groupName: Option<string>,
    senderName: string,
    destName: string,
    json: Option<MessageJson>)

  /** A timeline item. `threadId` is the key the components group on; `None` stands
      for a JavaScript `undefined` key, which is what the Signal mapping leaves there. */
  datatype Item = Item(
    id: string,
    timestamp: int,
    kind: string,
    threadId: Option<string>,
    content: SignalContent)

  /** The key the timeline orders by. */
  function Stamp(x: Item): int {
    x.timestamp
  }

  /** What a source or service throws; the message is informational only. */
  datatype Thrown = Thrown(message: string)

  /** JavaScript truthiness of a nullable string: `null` and `""` are falsy. */
  predicate Truthy(s: Option<string>) {
    s.Some? && s.value != ""
  }

  const OUTGOING: string := "outgoing"

  /** The components' test `content.type === 'outgoing'`. */
  predicate IsOutgoing(c: SignalContent) {
    c.msgType == OUTGOING
  }
}
