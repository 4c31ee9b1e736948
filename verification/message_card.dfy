/** The Signal message card: the header, the per-message sender names, the
    attachment test, the lightbox slides and their URLs, and the lightbox state.
    The route that the slide URLs address is modelled in `Attachments`; how the
    Next.js router turns a slide URL into that route's request is modelled here. */
module MessageCard {
  import opened Wrappers
  import opened Items
  import opened Seqs
  import PosixPath
  import ChatText
  import ThreadColor
  import FormUrlencoded
  import Attachments

  /** The card's header: a truthy group name; otherwise, the other party of the first
      message. An empty card throws, since `items[0]` is `undefined`. */
  function HeaderName(items: seq<Item>): (r: Result<string, Thrown>)
    ensures r.Failure? <==> |items| == 0
  {
    if |items| == 0 then Failure(Thrown("Cannot read properties of undefined (reading 'content')"))
    else
      var c := items[0].content;
      if Truthy(c.groupName) then Success(c.groupName.value)
      else if IsOutgoing(c) then Success(c.destName)
      else Success(c.senderName)
  }

  /** The header is set in italics exactly when it is the group name. */
  predicate HeaderItalic(items: seq<Item>)
    requires |items| > 0
  {
    Truthy(items[0].content.groupName)
  }

  /** The header of a direct thread names the party that the copied chat text pairs
      with "You" in the first message's line; that of a group thread is the group. */
  lemma HeaderIsOtherParty(items: seq<Item>)
    requires |items| > 0
    ensures var c := items[0].content;
      HeaderName(items) == Success(
        if HeaderItalic(items) then c.groupName.value
        else if ChatText.Sender(c) == ChatText.YOU then ChatText.Receiver(c)
        else ChatText.Sender(c))
  {
    var c := items[0].content;
    if !IsOutgoing(c) && c.senderName == ChatText.YOU {
      assert ChatText.Sender(c) == ChatText.YOU;
    }
  }

  /** Whether a message shows its sender's name, under the card's group name (taken
      from the first message). */
  predicate ShowSenderName(cardGroupName: Option<string>, c: SignalContent) {
    if Truthy(cardGroupName) then !IsOutgoing(c) else false
  }

  /** A shown sender name is the sender of that message's chat-text line and never
      the reader; in a direct thread no name is shown. */
  lemma ShownSenderIsLineSender(cardGroupName: Option<string>, c: SignalContent)
    ensures ShowSenderName(cardGroupName, c) ==> ChatText.Sender(c) == c.senderName && ChatText.Receiver(c) == ChatText.YOU
    ensures !Truthy(cardGroupName) ==> !ShowSenderName(cardGroupName, c)
    ensures IsOutgoing(c) ==> !ShowSenderName(cardGroupName, c) && ChatText.Sender(c) == ChatText.YOU
  {
    ChatText.SpeakerSides(c);
  }

  /** `Boolean(content.hasVisualMediaAttachments) && content.json?.attachments?.length > 0`. */
  predicate HasAttachments(c: SignalContent) {
    c.hasVisualMediaAttachments.Some? && c.hasVisualMediaAttachments.value != 0
    && c.json.Some? && c.json.value.attachments.Some? && |c.json.value.attachments.value| > 0
  }

  /** The attachments a message shows: none unless it has visual media. */
  function ShownAttachments(c: SignalContent): (r: seq<Attachment>)
    ensures |r| > 0 <==> HasAttachments(c)
  {
    if HasAttachments(c) then c.json.value.attachments.value else []
  }

  /** A lightbox slide. */
  datatype Slide = Slide(src: string, width: int, height: int)

  const ATTACHMENT_ROUTE: string := "/api/signal/attachments/"

  /** `n.toString()` for an integer. */
  function IntToString(n: int): string {
    if n < 0 then "-" + ThreadColor.Decimal(-n) else ThreadColor.Decimal(n)
  }

  /** The query of a slide URL as written: content type, local key and size. */
  function SlideQuery(a: Attachment): seq<FormUrlencoded.Pair> {
    [("contentType", a.contentType), ("localKey", a.localKey), ("size", IntToString(a.size))]
  }

  /** The query with the initialisation vector the route requires. */
  function SlideQueryWithIv(a: Attachment): seq<FormUrlencoded.Pair> {
    [("contentType", a.contentType), ("localKey", a.localKey), ("iv", a.iv), ("size", IntToString(a.size))]
  }

  /** The URL of an attachment's slide under a given query. */
  function SlideUrl(a: Attachment, query: seq<FormUrlencoded.Pair>): string {
    ATTACHMENT_ROUTE + a.path + "?" + FormUrlencoded.Serialize(query)
  }

  /** An attachment's slide as written. */
  function SlideOf(a: Attachment): Slide {
    Slide(SlideUrl(a, SlideQuery(a)), a.width, a.height)
  }

  /** An attachment's slide with the IV in its URL. */
  function SlideWithIvOf(a: Attachment): Slide {
    Slide(SlideUrl(a, SlideQueryWithIv(a)), a.width, a.height)
  }

  /** The slides of a message, as written. */
  function Slides(c: SignalContent): (r: seq<Slide>)
    ensures |r| == |ShownAttachments(c)|
    ensures forall i :: 0 <= i < |r| ==> r[i] == SlideOf(ShownAttachments(c)[i])
  {
    MapSeq(SlideOf, ShownAttachments(c))
  }

  /** The slides of a message, with the IV in their URLs. */
  function SlidesWithIv(c: SignalContent): (r: seq<Slide>)
    ensures |r| == |ShownAttachments(c)|
    ensures forall i :: 0 <= i < |r| ==> r[i] == SlideWithIvOf(ShownAttachments(c)[i])
  {
    MapSeq(SlideWithIvOf, ShownAttachments(c))
  }

  /** Every slide carries its attachment's size on screen, one slide per attachment
      in order, and only messages with visual media have any. */
  lemma SlidesFollowAttachments(c: SignalContent)
    ensures !HasAttachments(c) ==> Slides(c) == []
    ensures HasAttachments(c) ==>
      var atts := c.json.value.attachments.value;
      |Slides(c)| == |atts|
      && forall i :: 0 <= i < |atts| ==>
        Slides(c)[i].width == atts[i].width && Slides(c)[i].height == atts[i].height
        && Slides(c)[i].src == ATTACHMENT_ROUTE + atts[i].path + "?" + FormUrlencoded.Serialize(SlideQuery(atts[i]))
  {
  }

  /** The position of the first `?`, or the length when there is none. */
  function QueryStart(s: string): (k: nat)
    ensures k <= |s| && (k < |s| ==> s[k] == '?')
    ensures forall i :: 0 <= i < k ==> s[i] != '?'
  {
    if |s| == 0 || s[0] == '?' then 0 else QueryStart(s[1..]) + 1
  }

  /** What a query object holds under a name: nothing, one value, or all of them. */
  function Lookup(query: seq<FormUrlencoded.Pair>, name: string): (v: Attachments.QueryValue)
    ensures v.Absent? <==> forall i :: 0 <= i < |query| ==> query[i].0 != name
  {
    var kept := FilterSeq((p: FormUrlencoded.Pair) => p.0 == name, query);
    var values := MapSeq((p: FormUrlencoded.Pair) => p.1, kept);
    assert |kept| > 0 ==> kept[0] in query && kept[0].0 == name;
    if |values| == 0 then
      assert forall i :: 0 <= i < |query| ==> query[i] in query;
      Attachments.Absent
    else if |values| == 1 then Attachments.One(values[0])
    else Attachments.Many(values)
  }

  /** The request a `GET` of a URL makes of the attachment route: the segments of
      the path after the route prefix become `path`, and the query string is parsed.
      `None` when the URL is outside the route or names no file. */
  function RequestOf(url: string): Option<Attachments.AttachmentRequest> {
    if !PosixPath.StartsWith(url, ATTACHMENT_ROUTE) then None
    else RouteRequest(url[|ATTACHMENT_ROUTE|..])
  }

  /** The request for what follows the route prefix in a URL. */
  function RouteRequest(rest: string): Option<Attachments.AttachmentRequest> {
    var k := QueryStart(rest);
    var query := if k < |rest| then FormUrlencoded.Parse(rest[k + 1..]) else [];
    if k == 0 then None
    else Some(Attachments.AttachmentRequest("GET", Attachments.Many(PosixPath.Split(rest[..k])),
      Lookup(query, "contentType"), Lookup(query, "localKey"), Lookup(query, "iv")))
  }

  /** The route reads a slide URL back as its attachment's path and query. */
  lemma RequestOfSlideUrl(a: Attachment, query: seq<FormUrlencoded.Pair>)
    requires a.path != "" && '?' !in a.path
    ensures RequestOf(SlideUrl(a, query)) == Some(Attachments.AttachmentRequest("GET",
      Attachments.Many(PosixPath.Split(a.path)),
      Lookup(query, "contentType"), Lookup(query, "localKey"), Lookup(query, "iv")))
  {
    var q := FormUrlencoded.Serialize(query);
    var rest := a.path + "?" + q;
    assert SlideUrl(a, query) == ATTACHMENT_ROUTE + rest;
    RouteSplit(rest);
    QueryAfterPath(a.path, q);
    FormUrlencoded.ParseSerialize(query);
  }

  /** A URL made of the route prefix and a rest is read as a request for the rest. */
  lemma RouteSplit(rest: string)
    ensures RequestOf(ATTACHMENT_ROUTE + rest) == RouteRequest(rest)
  {
    var url := ATTACHMENT_ROUTE + rest;
    assert url[..|ATTACHMENT_ROUTE|] == ATTACHMENT_ROUTE;
    assert url[|ATTACHMENT_ROUTE|..] == rest;
  }

  /** The query of `p?q` starts after `p` when `p` holds no `?`. */
  lemma QueryAfterPath(p: string, q: string)
    requires '?' !in p
    ensures var s := p + "?" + q;
      QueryStart(s) == |p| && s[..|p|] == p && s[|p| + 1..] == q
  {
    var s := p + "?" + q;
    assert s[|p|] == '?';
    assert forall i :: 0 <= i < |p| ==> s[i] == p[i];
    assert s[..|p|] == p;
    assert s[|p| + 1..] == q;
  }

  /** Every slide URL as written is refused with status 400 before the attachment
      service is asked: its query has no `iv`. */
  lemma SlideRequestsAreRefused(base: string, a: Attachment, io: Attachments.Io)
    requires a.path != "" && '?' !in a.path
    ensures RequestOf(SlideOf(a).src).Some?
    ensures var resp := Attachments.ServeAttachment(base, RequestOf(SlideOf(a).src).value, io);
      resp.Refused? && resp.status == 400
  {
    RequestOfSlideUrl(a, SlideQuery(a));
    SlideQueryLookups(a);
    var req := Attachments.AttachmentRequest("GET", Attachments.Many(PosixPath.Split(a.path)),
      Attachments.One(a.contentType), Attachments.One(a.localKey), Attachments.Absent);
    assert RequestOf(SlideOf(a).src) == Some(req);
    ServeWithoutIv(base, req, io);
  }

  /** A `GET` without an IV is refused with status 400, whatever else it carries. */
  lemma ServeWithoutIv(base: string, req: Attachments.AttachmentRequest, io: Attachments.Io)
    requires req.httpMethod == "GET" && req.iv.Absent?
    ensures var resp := Attachments.ServeAttachment(base, req, io);
      resp.Refused? && resp.status == 400
    ensures var resp := Attachments.ServeAttachmentIntended(base, req, io);
      resp.Refused? && resp.status == 400
  {
  }

  /** The route's view of the query as written: content type and key once each, no IV. */
  lemma SlideQueryLookups(a: Attachment)
    ensures Lookup(SlideQuery(a), "contentType") == Attachments.One(a.contentType)
    ensures Lookup(SlideQuery(a), "localKey") == Attachments.One(a.localKey)
    ensures Lookup(SlideQuery(a), "iv") == Attachments.Absent
  {
    ContentTypeLookup(SlideQuery(a), a.contentType);
    LocalKeyLookup(SlideQuery(a), a.localKey);
    NoIvLookup(a);
  }

  lemma NoIvLookup(a: Attachment)
    ensures Lookup(SlideQuery(a), "iv") == Attachments.Absent
  {
    var q := SlideQuery(a);
    assert q[0].0 != "iv" && q[1].0 != "iv" && q[2].0 != "iv";
  }

  /** The route's view of the query with the IV: each of the three once. */
  lemma SlideQueryWithIvLookups(a: Attachment)
    ensures Lookup(SlideQueryWithIv(a), "contentType") == Attachments.One(a.contentType)
    ensures Lookup(SlideQueryWithIv(a), "localKey") == Attachments.One(a.localKey)
    ensures Lookup(SlideQueryWithIv(a), "iv") == Attachments.One(a.iv)
  {
    ContentTypeLookup(SlideQueryWithIv(a), a.contentType);
    LocalKeyLookup(SlideQueryWithIv(a), a.localKey);
    IvLookup(a);
  }

  lemma IvLookup(a: Attachment)
    ensures Lookup(SlideQueryWithIv(a), "iv") == Attachments.One(a.iv)
  {
    LookupOnce(SlideQueryWithIv(a), 2, "iv");
  }

  lemma ContentTypeLookup(q: seq<FormUrlencoded.Pair>, v: string)
    requires |q| >= 3 && q[0] == ("contentType", v) && q[1].0 == "localKey"
    requires forall i :: 2 <= i < |q| ==> |q[i].0| < 5
    ensures Lookup(q, "contentType") == Attachments.One(v)
  {
    LookupOnce(q, 0, "contentType");
  }

  lemma LocalKeyLookup(q: seq<FormUrlencoded.Pair>, v: string)
    requires |q| >= 3 && q[0].0 == "contentType" && q[1] == ("localKey", v)
    requires forall i :: 2 <= i < |q| ==> |q[i].0| < 5
    ensures Lookup(q, "localKey") == Attachments.One(v)
  {
    LookupOnce(q, 1, "localKey");
  }

  /** A name that occurs once in a query has that one value. */
  lemma LookupOnce(query: seq<FormUrlencoded.Pair>, k: nat, name: string)
    requires k < |query| && query[k].0 == name
    requires forall i :: 0 <= i < |query| && i != k ==> query[i].0 != name
    ensures Lookup(query, name) == Attachments.One(query[k].1)
  {
    var keep := (p: FormUrlencoded.Pair) => p.0 == name;
    assert query == query[..k] + [query[k]] + query[k + 1..];
    FilterAppend(keep, query[..k] + [query[k]], query[k + 1..]);
    FilterAppend(keep, query[..k], [query[k]]);
    FilterNone(keep, query[..k]);
    FilterNone(keep, query[k + 1..]);
    assert FilterSeq(keep, [query[k]]) == [query[k]];
  }

  /** Nothing is kept from a sequence with no element to keep. */
  lemma {:induction false} FilterNone<A>(keep: A -> bool, s: seq<A>)
    requires forall i :: 0 <= i < |s| ==> !keep(s[i])
    ensures FilterSeq(keep, s) == []
  {
    if s != [] {
      FilterNone(keep, s[1..]);
    }
  }

  /** With the IV in its URL, a slide of an attachment with a content type, key and IV
      is served exactly when the attachment service decrypts the file at its path
      and the content type can be set as a header, and then with that data; this
      holds for the deployed service and for the one with the intended guard. */
  lemma SlideWithIvRequestsReachService(base: string, a: Attachment, io: Attachments.Io)
    requires a.path != "" && '?' !in a.path
    requires a.contentType != "" && a.localKey != "" && a.iv != ""
    ensures RequestOf(SlideWithIvOf(a).src).Some?
    ensures var resp := Attachments.ServeAttachment(base, RequestOf(SlideWithIvOf(a).src).value, io);
      var got := Attachments.GetAttachmentAsWritten(base, a.path, a.localKey, a.iv, io);
      (resp.Served? <==> got.Success? && Attachments.HeaderSettable(Attachments.One(a.contentType)))
      && (resp.Served? ==> resp.data == got.value && resp.contentType == Attachments.One(a.contentType))
      && (resp.Refused? ==> resp.status == 500)
    ensures var resp := Attachments.ServeAttachmentIntended(base, RequestOf(SlideWithIvOf(a).src).value, io);
      var got := Attachments.GetAttachment(base, a.path, a.localKey, a.iv, io);
      (resp.Served? <==> got.Success? && Attachments.HeaderSettable(Attachments.One(a.contentType)))
      && (resp.Served? ==> resp.data == got.value && resp.contentType == Attachments.One(a.contentType))
      && (resp.Refused? ==> resp.status == 500)
  {
    RequestOfSlideUrl(a, SlideQueryWithIv(a));
    SlideQueryWithIvLookups(a);
    var req := Attachments.AttachmentRequest("GET", Attachments.Many(PosixPath.Split(a.path)),
      Attachments.One(a.contentType), Attachments.One(a.localKey), Attachments.One(a.iv));
    assert RequestOf(SlideWithIvOf(a).src) == Some(req);
    PosixPath.JoinSplit(a.path);
    ServeComplete(base, req, io);
  }

  /** A `GET` with a content type, a key, an IV and path segments reaches the
      service, deployed or intended: it is served exactly when the service decrypts
      the joined path and the content type can be set as a header, with that data,
      and otherwise answered with a 500. */
  lemma ServeComplete(base: string, req: Attachments.AttachmentRequest, io: Attachments.Io)
    requires req.httpMethod == "GET" && req.path.Many?
    requires req.contentType.One? && req.localKey.One? && req.iv.One?
    requires req.contentType.value != "" && req.localKey.value != "" && req.iv.value != ""
    ensures var resp := Attachments.ServeAttachment(base, req, io);
      var got := Attachments.GetAttachmentAsWritten(base, PosixPath.JoinSegs(req.path.values), req.localKey.value, req.iv.value, io);
      (resp.Served? <==> got.Success? && Attachments.HeaderSettable(req.contentType))
      && (resp.Served? ==> resp.data == got.value && resp.contentType == req.contentType)
      && (resp.Refused? ==> resp.status == 500)
    ensures var resp := Attachments.ServeAttachmentIntended(base, req, io);
      var got := Attachments.GetAttachment(base, PosixPath.JoinSegs(req.path.values), req.localKey.value, req.iv.value, io);
      (resp.Served? <==> got.Success? && Attachments.HeaderSettable(req.contentType))
      && (resp.Served? ==> resp.data == got.value && resp.contentType == req.contentType)
      && (resp.Refused? ==> resp.status == 500)
  {
    var deployed: Attachments.Service := (f, k, v) => Attachments.GetAttachmentAsWritten(base, f, k, v, io);
    var intended: Attachments.Service := (f, k, v) => Attachments.GetAttachment(base, f, k, v, io);
    assert Attachments.ServeAttachment(base, req, io) == Attachments.Route(req, deployed);
    assert Attachments.ServeAttachmentIntended(base, req, io) == Attachments.Route(req, intended);
    Attachments.RouteReachesService(req, deployed);
    Attachments.RouteReachesService(req, intended);
  }

  /** What the user does to a card's lightboxes. */
  datatype LightboxEvent = ClickSlide(message: nat) | CloseLightbox

  /** `openLightboxIndex` after one event: a click on any slide of message `i`
      opens that message's lightbox, closing clears it. */
  function Next(open: Option<nat>, e: LightboxEvent): Option<nat> {
    match e
    case ClickSlide(i) => Some(i)
    case CloseLightbox => None
  }

  /** `openLightboxIndex` after a series of events, starting from `null`. */
  function Replay(events: seq<LightboxEvent>): Option<nat> {
    if |events| == 0 then None else Next(Replay(events[..|events| - 1]), events[|events| - 1])
  }

  /** The messages of a card whose lightbox is rendered. */
  function OpenLightboxes(items: seq<Item>, open: Option<nat>): set<nat> {
    set i: nat | i < |items| && HasAttachments(items[i].content) && open == Some(i)
  }

  /** At most one lightbox is open; after a click on a slide of message `i` it is that
      message's, and after a close there is none. */
  lemma OneLightboxAtATime(items: seq<Item>, events: seq<LightboxEvent>)
    requires |events| > 0
    ensures |OpenLightboxes(items, Replay(events))| <= 1
    ensures var e := events[|events| - 1];
      (e.CloseLightbox? ==> OpenLightboxes(items, Replay(events)) == {})
      && (e.ClickSlide? && e.message < |items| && HasAttachments(items[e.message].content) ==>
            OpenLightboxes(items, Replay(events)) == {e.message})
  {
    var open := Replay(events);
    var s := OpenLightboxes(items, open);
    if open.Some? {
      if open.value in s {
        assert s == {open.value};
      } else {
        assert s == {};
      }
    } else {
      assert s == {};
    }
  }
}
