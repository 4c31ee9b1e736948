/** The timeline's "Copy Chat Text" buffer: every visible group as a `<CHAT>` block
    holding one line per message. `toLocaleString` is a parameter (`time`). */
module ChatText {
  import opened Wrappers
  import opened Items
  import opened Seqs
  import opened ThreadGroups

  const YOU: string := "You"
  const OPEN: string := "<CHAT>\n"
  const CLOSE: string := "</CHAT>\n\n"

  /** The left-hand name of a line: the reader for an outgoing message. */
  function Sender(c: SignalContent): string {
    if IsOutgoing(c) then YOU else c.senderName
  }

  /** The right-hand name of a line: the reader for an incoming message. */
  function Receiver(c: SignalContent): string {
    if IsOutgoing(c) then c.destName else YOU
  }

  /** A template literal renders a `null` body as the text `null`. */
  function BodyText(body: Option<string>): string {
    if body.Some? then body.value else "null"
  }

  /** One message line: time, then sender and receiver in brackets, then the body. */
  function Line(x: Item, time: int -> string): string {
    time(x.timestamp) + " [" + Sender(x.content) + "] => [" + Receiver(x.content) + "]: "
      + BodyText(x.content.body) + "\n"
  }

  function LineOf(time: int -> string): Item -> string {
    x => Line(x, time)
  }

  /** The block of one group: its lines, in order, between the markers. */
  function Block(g: ThreadGroup, time: int -> string): string {
    OPEN + ConcatMap(LineOf(time), g.items) + CLOSE
  }

  function BlockOf(time: int -> string): ThreadGroup -> string {
    g => Block(g, time)
  }

  /** The whole buffer: the groups' blocks, in order. */
  function Chat(groups: seq<ThreadGroup>, time: int -> string): string {
    ConcatMap(BlockOf(time), groups)
  }

  /** In every line one side is the reader: the sender for an outgoing message,
      the receiver otherwise, and the other side is the named party. */
  lemma SpeakerSides(c: SignalContent)
    ensures IsOutgoing(c) ==> Sender(c) == YOU && Receiver(c) == c.destName
    ensures !IsOutgoing(c) ==> Sender(c) == c.senderName && Receiver(c) == YOU
    ensures Sender(c) == YOU || Receiver(c) == YOU
  {
  }

  /** `formatChatText(groups)`: the component's outer loop, one block per group. */
  method FormatChatText(groups: seq<ThreadGroup>, time: int -> string) returns (buffer: string)
    ensures buffer == Chat(groups, time)
  {
    buffer := "";
    var i := 0;
    while i < |groups|
      invariant 0 <= i <= |groups|
      invariant buffer == ConcatMap(BlockOf(time), groups[..i])
    {
      buffer := AppendBlock(buffer, groups[i], time);
      assert groups[..i + 1] == groups[..i] + [groups[i]];
      i := i + 1;
    }
    assert groups[..i] == groups;
  }

  /** The component's inner loop: the opening marker, a line per message, the closing marker. */
  method AppendBlock(buffer: string, g: ThreadGroup, time: int -> string) returns (out: string)
    ensures out == buffer + BlockOf(time)(g)
  {
    var start := buffer + OPEN;
    out := start;
    var j := 0;
    while j < |g.items|
      invariant 0 <= j <= |g.items|
      invariant out == start + ConcatMap(LineOf(time), g.items[..j])
    {
      var line := LineOf(time)(g.items[j]);
      ConcatMapSnoc(LineOf(time), g.items, j);
      Assoc(start, ConcatMap(LineOf(time), g.items[..j]), line);
      out := out + line;
      j := j + 1;
    }
    assert g.items[..j] == g.items;
    Assoc(buffer, OPEN, ConcatMap(LineOf(time), g.items));
    Assoc(buffer, OPEN + ConcatMap(LineOf(time), g.items), CLOSE);
    out := out + CLOSE;
  }

  lemma Assoc(a: string, b: string, c: string)
    ensures a + b + c == a + (b + c)
  {
  }

  /** The buffer of a concatenation is the concatenation of the buffers. */
  lemma ChatAppend(a: seq<ThreadGroup>, b: seq<ThreadGroup>, time: int -> string)
    ensures Chat(a + b, time) == Chat(a, time) + Chat(b, time)
  {
    ConcatMapAppend(BlockOf(time), a, b);
  }

  lemma Regroup(a: string, b: string, c: string, d: string, e: string, f: string, g: string)
    ensures a + (b + (c + d + e) + f) + g == a + b + c + d + (e + f + g)
  {
  }

  /** Every message of every group appears as a line of the buffer, inside its
      group's block and after the lines of the messages before it. */
  lemma LineInChat(groups: seq<ThreadGroup>, k: nat, i: nat, time: int -> string)
    requires k < |groups| && i < |groups[k].items|
    ensures exists before, after ::
      Chat(groups, time) == before + OPEN + ConcatMap(LineOf(time), groups[k].items[..i])
        + Line(groups[k].items[i], time) + after
  {
    var g := groups[k];
    ConcatMapSplit(BlockOf(time), groups, k);
    ConcatMapSplit(LineOf(time), g.items, i);
    var before := Chat(groups[..k], time);
    var lines := ConcatMap(LineOf(time), g.items[..i]);
    var rest := ConcatMap(LineOf(time), g.items[i + 1..]);
    var after := rest + CLOSE + Chat(groups[k + 1..], time);
    Regroup(before, OPEN, lines, Line(g.items[i], time), rest, CLOSE, Chat(groups[k + 1..], time));
  }
}
