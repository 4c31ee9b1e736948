/** The Signal message source: the query it runs against the decrypted message
    database and the mapping of each result row to a timeline item. The SQL
    engine itself is replaced by a definition of what the query denotes. */
module SignalSource {
  import opened Wrappers
  import opened Items
  import opened Seqs
  import opened Recency

  /** A row of `messages`, restricted to the columns the query reads. */
  datatype MessageRow = MessageRow(
    id: string,
    sentAt: int,
    msgType: string,
    body: Option<string>,
    json: Option<string>,
    conversationId: Option<string>,
    hasVisualMediaAttachments: Option<int>,
    sourceServiceId: Option<string>)

  /** A row of `conversations`, restricted to the columns the query reads. */
  datatype ConversationRow = ConversationRow(
    id: string,
    serviceId: Option<string>,
    convType: string,
    name: Option<string>,
    profileFullName: Option<string>)

  datatype Database = Database(messages: seq<MessageRow>, conversations: seq<ConversationRow>)

  /** One row of the query's result set, named as in its SELECT list. */
  datatype ResultRow = ResultRow(
    id: string,
    sentAt: int,
    msgType: string,
    body: Option<string>,
    json: Option<string>,
    conversationId: Option<string>,
    hasVisualMediaAttachments: Option<int>,
    groupName: Option<string>,
    senderName: string,
    destName: string)

  const KIND: string := "signal_message"
  const UNKNOWN: string := "Unknown"

  /** SQL equality between nullable keys: NULL equals nothing, not even NULL. */
  predicate SqlEq(a: Option<string>, b: Option<string>) {
    a.Some? && b.Some? && a.value == b.value
  }

  /** The right-hand rows of a LEFT JOIN for one left row: the matches, or a single all-NULL row. */
  function LeftJoin(matches: seq<ConversationRow>): (r: seq<Option<ConversationRow>>)
    ensures matches == [] ==> r == [None]
    ensures matches != [] ==> |r| == |matches| && forall i :: 0 <= i < |r| ==> r[i] == Some(matches[i])
  {
    if matches == [] then [None] else MapSeq((c: ConversationRow) => Some(c), matches)
  }

  /** `COALESCE(x, fallback)`. */
  function Coalesce(x: Option<string>, fallback: string): (r: string)
    ensures x.Some? ==> r == x.value
    ensures x.None? ==> r == fallback
  {
    if x.Some? then x.value else fallback
  }

  /** The SELECT list evaluated on one joined triple `m`, `c`, `pc`. */
  function Project(m: MessageRow, c: Option<ConversationRow>, pc: Option<ConversationRow>): (r: ResultRow)
    ensures r.id == m.id && r.sentAt == m.sentAt && r.msgType == m.msgType && r.body == m.body
    ensures r.json == m.json && r.conversationId == m.conversationId
    ensures r.hasVisualMediaAttachments == m.hasVisualMediaAttachments
    ensures r.groupName.Some? <==> c.Some? && c.value.convType == "group" && c.value.name.Some?
    ensures r.groupName.Some? ==> r.groupName == c.value.name
    ensures r.senderName == UNKNOWN <==> pc.None? || pc.value.profileFullName.None? || pc.value.profileFullName == Some(UNKNOWN)
    ensures r.destName == UNKNOWN <==> c.None? || c.value.profileFullName.None? || c.value.profileFullName == Some(UNKNOWN)
    ensures pc.Some? && pc.value.profileFullName.Some? ==> r.senderName == pc.value.profileFullName.value
    ensures c.Some? && c.value.profileFullName.Some? ==> r.destName == c.value.profileFullName.value
  {
    ResultRow(
      m.id, m.sentAt, m.msgType, m.body, m.json, m.conversationId, m.hasVisualMediaAttachments,
      if c.Some? && c.value.convType == "group" then c.value.name else None,
      Coalesce(if pc.Some? then pc.value.profileFullName else None, UNKNOWN),
      Coalesce(if c.Some? then c.value.profileFullName else None, UNKNOWN))
  }

  /** The joined rows one message contributes: `c` on `m.conversationId = c.id`,
      then `pc` on `m.sourceServiceId = pc.serviceId`. */
  function JoinMessage(db: Database, m: MessageRow): (r: seq<ResultRow>)
    ensures |r| >= 1
    ensures forall i :: 0 <= i < |r| ==> r[i].id == m.id && r[i].sentAt == m.sentAt
  {
    var cs := LeftJoin(FilterSeq((c: ConversationRow) => SqlEq(m.conversationId, Some(c.id)), db.conversations));
    var pcs := LeftJoin(FilterSeq((c: ConversationRow) => SqlEq(m.sourceServiceId, c.serviceId), db.conversations));
    JoinEach(m, cs, pcs)
  }

  function JoinEach(m: MessageRow, cs: seq<Option<ConversationRow>>, pcs: seq<Option<ConversationRow>>): (r: seq<ResultRow>)
    ensures |r| == |cs| * |pcs|
    ensures forall i :: 0 <= i < |r| ==> r[i].id == m.id && r[i].sentAt == m.sentAt
  {
    if cs == [] then []
    else
      var first := MapSeq((pc: Option<ConversationRow>) => Project(m, cs[0], pc), pcs);
      var rest := JoinEach(m, cs[1..], pcs);
      assert |first + rest| == |pcs| + (|cs| - 1) * |pcs| == |cs| * |pcs|;
      first + rest
  }

  /** `messages m LEFT JOIN conversations c … LEFT JOIN conversations pc …`. */
  function Join(db: Database): seq<ResultRow> {
    Flatten(MapSeq((m: MessageRow) => JoinMessage(db, m), db.messages))
  }

  function SentAt(r: ResultRow): int {
    r.sentAt
  }

  /** `WHERE m.sent_at <= ?`. */
  function Where(rows: seq<ResultRow>, startTime: int): (r: seq<ResultRow>)
    ensures forall x :: x in r ==> x in rows && x.sentAt <= startTime
    ensures forall x :: x in rows && x.sentAt <= startTime ==> x in r
  {
    FilterSeq((x: ResultRow) => x.sentAt <= startTime, rows)
  }

  /** `LIMIT ?`: SQLite reads a negative limit as no limit at all. */
  function Limit(rows: seq<ResultRow>, count: int): (r: seq<ResultRow>)
    ensures count < 0 ==> r == rows
    ensures count >= 0 ==> |r| == Min(count, |rows|) && r == rows[..|r|]
  {
    if count < 0 then rows else Take(rows, count)
  }

  /** The whole statement. SQL leaves the order of rows with equal `sent_at`
      open; the model keeps them in join order. */
  function Query(db: Database, startTime: int, count: int): (r: seq<ResultRow>)
    ensures forall x :: x in r ==> x in Join(db) && x.sentAt <= startTime
    ensures NewestFirst(r, SentAt)
    ensures count >= 0 ==> |r| <= count
    ensures multiset(r) <= multiset(Where(Join(db), startTime))
  {
    var w := Where(Join(db), startTime);
    var sorted := SortNewestFirst(w, SentAt);
    var r := Limit(sorted, count);
    SortPermutes(w, SentAt);
    PrefixWithin(sorted, |r|);
    forall x | x in r
      ensures x in Join(db) && x.sentAt <= startTime
    {
      assert x in multiset(w);
    }
    r
  }

  lemma PrefixWithin<T>(s: seq<T>, n: nat)
    requires n <= |s|
    ensures multiset(s[..n]) <= multiset(s)
  {
    assert s == s[..n] + s[n..];
  }

  /** The row's `json` as the mapping leaves it; `parseJson` answers `None` where
      `JSON.parse` throws. */
  function ParsedJson(row: ResultRow, parseJson: string -> Option<MessageJson>): (j: Option<MessageJson>)
    ensures !Truthy(row.json) ==> j.None?
    ensures Truthy(row.json) ==> j == parseJson(row.json.value)
  {
    if Truthy(row.json) then parseJson(row.json.value) else None
  }

  /** The mapping of one result row to a timeline item. */
  function ToItem(row: ResultRow, parseJson: string -> Option<MessageJson>): (item: Item)
    ensures item.id == row.id && item.timestamp == row.sentAt && item.kind == KIND
    ensures item.threadId.None?
    ensures item.content.direction == row.msgType && item.content.msgType == row.msgType
    ensures item.content.body == row.body && item.content.conversationId == row.conversationId
    ensures item.content.hasVisualMediaAttachments == row.hasVisualMediaAttachments
    ensures item.content.groupName == row.groupName
    ensures item.content.senderName == row.senderName && item.content.destName == row.destName
    ensures item.content.json == ParsedJson(row, parseJson)
  {
    Item(row.id, row.sentAt, KIND, None,
      SignalContent(row.msgType, row.body, row.msgType, row.conversationId,
        row.hasVisualMediaAttachments, row.groupName, row.senderName, row.destName,
        ParsedJson(row, parseJson)))
  }

  /** `JSON.parse` throws on this row. */
  predicate JsonThrows(row: ResultRow, parseJson: string -> Option<MessageJson>) {
    Truthy(row.json) && parseJson(row.json.value).None?
  }

  /** `getItems(startTime, count)`: the query, then the mapping of every returned row. */
  function GetItems(db: Database, parseJson: string -> Option<MessageJson>, startTime: int, count: int)
    : (r: Result<seq<Item>, Thrown>)
    ensures r.Failure? <==> exists row :: row in Query(db, startTime, count) && JsonThrows(row, parseJson)
    ensures r.Success? ==> |r.value| == |Query(db, startTime, count)|
    ensures r.Success? ==> forall i :: 0 <= i < |r.value| ==>
      r.value[i] == ToItem(Query(db, startTime, count)[i], parseJson)
    ensures r.Success? ==> forall x :: x in r.value ==> x.timestamp <= startTime && x.kind == KIND
    ensures r.Success? ==> NewestFirst(r.value, Stamp)
    ensures r.Success? && count >= 0 ==> |r.value| <= count
  {
    var rows := Query(db, startTime, count);
    if exists row :: row in rows && JsonThrows(row, parseJson) then
      Failure(Thrown("JSON.parse: invalid json column"))
    else
      var items := MapSeq((row: ResultRow) => ToItem(row, parseJson), rows);
      MappedRows(rows, items, parseJson, startTime);
      Success(items)
  }

  lemma MappedRows(rows: seq<ResultRow>, items: seq<Item>, parseJson: string -> Option<MessageJson>, startTime: int)
    requires NewestFirst(rows, SentAt)
    requires forall x :: x in rows ==> x.sentAt <= startTime
    requires |items| == |rows| && forall i :: 0 <= i < |rows| ==> items[i] == ToItem(rows[i], parseJson)
    ensures forall x :: x in items ==> x.timestamp <= startTime && x.kind == KIND
    ensures NewestFirst(items, Stamp)
  {
    forall x | x in items
      ensures x.timestamp <= startTime && x.kind == KIND
    {
      var i :| 0 <= i < |items| && items[i] == x;
      assert rows[i] in rows;
    }
    forall i, j | 0 <= i < j < |items|
      ensures Stamp(items[i]) >= Stamp(items[j])
    {
      assert SentAt(rows[i]) >= SentAt(rows[j]);
    }
  }

  /** Every item the source could return for `startTime`, in join order. */
  function Candidates(db: Database, parseJson: string -> Option<MessageJson>, startTime: int): seq<Item> {
    MapSeq((row: ResultRow) => ToItem(row, parseJson), Where(Join(db), startTime))
  }
}
