/** The `/api/timeline` request handler: method check, thread navigation, and the
    centred page of items. Query values are single strings or absent; `parseInt`
    (decimal) is a parameter answering `None` for `NaN`, and an absent value
    parses as `NaN`. */
module TimelineApi {
  import opened Wrappers
  import opened Items
  import opened TimelineService

  datatype Request = Request(
    httpMethod: string,
    action: Option<string>,
    threadId: Option<string>,
    timestamp: Option<string>,
    center: Option<string>,
    count: Option<string>)

  /** The JSON body of a response. */
  datatype Body =
    | ErrorBody(error: string)
    | TimestampBody(timestamp: Option<int>)
    | ItemsBody(items: seq<Item>)

  datatype Response = Response(status: int, body: Body)

  const NEXT_THREAD: string := "nextThread"
  const PREV_THREAD: string := "prevThread"
  const DEFAULT_COUNT: int := 50

  /** `parseInt(value as string)`, with `parseInt(undefined)` being `NaN`. */
  function ParseQuery(value: Option<string>, parseInt: string -> Option<int>): (n: Option<int>)
    ensures value.None? ==> n.None?
    ensures value.Some? ==> n == parseInt(value.value)
  {
    if value.None? then None else parseInt(value.value)
  }

  /** `parseInt(count) || 50`: `NaN` and `0` are falsy and fall back to fifty. */
  function CountParam(value: Option<string>, parseInt: string -> Option<int>): (count: int)
    ensures count != 0
    ensures count == DEFAULT_COUNT <==> ParseQuery(value, parseInt) in {None, Some(0), Some(DEFAULT_COUNT)}
    ensures ParseQuery(value, parseInt).Some? && ParseQuery(value, parseInt).value != 0 ==> count == ParseQuery(value, parseInt).value
  {
    match ParseQuery(value, parseInt)
    case None => DEFAULT_COUNT
    case Some(n) => if n == 0 then DEFAULT_COUNT else n
  }

  /** One source's answer to a navigation request: a source that does not declare
      the method throws a `TypeError`. */
  function Ask(s: Source, next: bool, threadId: string, timestamp: int): NavAnswer {
    var m := if next then s.nextThread else s.prevThread;
    if m.None? then Failure(Thrown("source navigation method is not a function"))
    else m.value(threadId, timestamp)
  }

  /** The source answered, and answered `null`. */
  predicate AnsweredNull(s: Source, next: bool, threadId: string, timestamp: int) {
    Ask(s, next, threadId, timestamp) == Success(None)
  }

  /** The navigation loop: ask the sources in order and stop at the first answer
      that is not `null`; a throw ends the loop. */
  function Navigate(sources: seq<Source>, next: bool, threadId: string, timestamp: int): (r: NavAnswer)
    ensures r == Success(None) <==> forall i :: 0 <= i < |sources| ==> AnsweredNull(sources[i], next, threadId, timestamp)
    ensures r != Success(None) ==>
      exists i :: 0 <= i < |sources| && Ask(sources[i], next, threadId, timestamp) == r
                  && (forall j :: 0 <= j < i ==> AnsweredNull(sources[j], next, threadId, timestamp))
  {
    if |sources| == 0 then Success(None)
    else
      var a := Ask(sources[0], next, threadId, timestamp);
      if a != Success(None) then a
      else
        var rest := Navigate(sources[1..], next, threadId, timestamp);
        assert forall i :: 1 <= i < |sources| ==> sources[i] == sources[1..][i - 1];
        if rest != Success(None) then
          var i :| 0 <= i < |sources[1..]| && Ask(sources[1..][i], next, threadId, timestamp) == rest
            && (forall j :: 0 <= j < i ==> AnsweredNull(sources[1..][j], next, threadId, timestamp));
          assert Ask(sources[i + 1], next, threadId, timestamp) == rest;
          rest
        else
          rest
  }

  /** Sources registered after the one that answers are never asked. */
  lemma {:induction false} NavigateAppend(a: seq<Source>, b: seq<Source>, next: bool, threadId: string, timestamp: int)
    ensures Navigate(a, next, threadId, timestamp) != Success(None) ==>
      Navigate(a + b, next, threadId, timestamp) == Navigate(a, next, threadId, timestamp)
    ensures Navigate(a, next, threadId, timestamp) == Success(None) ==>
      Navigate(a + b, next, threadId, timestamp) == Navigate(b, next, threadId, timestamp)
  {
    if |a| > 0 {
      assert (a + b)[1..] == a[1..] + b;
      NavigateAppend(a[1..], b, next, threadId, timestamp);
    } else {
      assert a + b == b;
    }
  }

  predicate IsNavigation(req: Request) {
    req.action == Some(NEXT_THREAD) || req.action == Some(PREV_THREAD)
  }

  /** `!threadId`: absent and empty ids are rejected. */
  predicate ValidNavigation(req: Request, parseInt: string -> Option<int>) {
    Truthy(req.threadId) && ParseQuery(req.timestamp, parseInt).Some?
  }

  function ServerError(): Response {
    Response(500, ErrorBody("Internal server error"))
  }

  /** The timeline branch, shared by the handler as written and as intended. */
  function ItemsPage(svc: Service, req: Request, parseInt: string -> Option<int>): Response {
    var centre := ParseQuery(req.center, parseInt);
    var count := CountParam(req.count, parseInt);
    if centre.None? then Response(400, ErrorBody("Invalid center timestamp"))
    else match GetTimelineItems(svc, centre.value, count)
      case Failure(_) => ServerError()
      case Success(items) => Response(200, ItemsBody(items))
  }

  /** The handler, with the navigation loop running over the service's registered sources. */
  function Handle(svc: Service, req: Request, parseInt: string -> Option<int>): (resp: Response)
    ensures req.httpMethod != "GET" <==> resp.status == 405
    ensures resp.status in {200, 400, 405, 500}
    ensures req.httpMethod == "GET" && IsNavigation(req) ==>
      (!ValidNavigation(req, parseInt) <==> resp == Response(400, ErrorBody("Invalid threadId or timestamp")))
  {
    if req.httpMethod != "GET" then Response(405, ErrorBody("Method not allowed"))
    else if IsNavigation(req) then
      if !ValidNavigation(req, parseInt) then Response(400, ErrorBody("Invalid threadId or timestamp"))
      else match Navigate(svc.sources, req.action == Some(NEXT_THREAD), req.threadId.value,
                          ParseQuery(req.timestamp, parseInt).value)
        case Failure(_) => ServerError()
        case Success(t) => Response(200, TimestampBody(t))
    else ItemsPage(svc, req, parseInt)
  }

  /** The handler as written: the loop header calls `timelineService.getSources()`,
      which the service does not define, so every valid navigation request throws
      a `TypeError` that the handler turns into a 500. */
  function HandleAsWritten(svc: Service, req: Request, parseInt: string -> Option<int>): (resp: Response)
    ensures req.httpMethod != "GET" <==> resp.status == 405
    ensures !IsNavigation(req) ==> resp == Handle(svc, req, parseInt)
    ensures req.httpMethod == "GET" && IsNavigation(req) ==>
      (!ValidNavigation(req, parseInt) <==> resp == Response(400, ErrorBody("Invalid threadId or timestamp")))
  {
    if req.httpMethod != "GET" then Response(405, ErrorBody("Method not allowed"))
    else if IsNavigation(req) then
      if !ValidNavigation(req, parseInt) then Response(400, ErrorBody("Invalid threadId or timestamp"))
      else ServerError()
    else ItemsPage(svc, req, parseInt)
  }

  /** As written, no navigation request ever succeeds, whatever the sources answer:
      an invalid one gets a 400 and a valid one a 500. */
  lemma NavigationAsWrittenNeverAnswers(svc: Service, req: Request, parseInt: string -> Option<int>)
    requires req.httpMethod == "GET" && IsNavigation(req)
    ensures HandleAsWritten(svc, req, parseInt).status != 200
    ensures ValidNavigation(req, parseInt) <==> HandleAsWritten(svc, req, parseInt) == ServerError()
    ensures !ValidNavigation(req, parseInt) <==>
      HandleAsWritten(svc, req, parseInt) == Response(400, ErrorBody("Invalid threadId or timestamp"))
  {
  }

  /** The intended navigation answers `{timestamp: null}` exactly when every source
      answers `null`, and a 500 exactly when some source throws before any source
      answers a timestamp. */
  lemma NavigationNullOrThrow(svc: Service, req: Request, parseInt: string -> Option<int>)
    requires req.httpMethod == "GET" && IsNavigation(req) && ValidNavigation(req, parseInt)
    ensures var next, id, t := req.action == Some(NEXT_THREAD), req.threadId.value, ParseQuery(req.timestamp, parseInt).value;
      (forall i :: 0 <= i < |svc.sources| ==> AnsweredNull(svc.sources[i], next, id, t))
      <==> Handle(svc, req, parseInt) == Response(200, TimestampBody(None))
    ensures var next, id, t := req.action == Some(NEXT_THREAD), req.threadId.value, ParseQuery(req.timestamp, parseInt).value;
      (exists i :: 0 <= i < |svc.sources| && Ask(svc.sources[i], next, id, t).Failure?
                   && forall j :: 0 <= j < i ==> AnsweredNull(svc.sources[j], next, id, t))
      <==> Handle(svc, req, parseInt) == ServerError()
  {
    var next, id, t := req.action == Some(NEXT_THREAD), req.threadId.value, ParseQuery(req.timestamp, parseInt).value;
    HandleNavigation(svc, req, parseInt);
    NavigateThrows(svc.sources, next, id, t);
  }

  /** The loop throws exactly when some source throws before any source answers a
      timestamp. */
  lemma NavigateThrows(sources: seq<Source>, next: bool, threadId: string, timestamp: int)
    ensures Navigate(sources, next, threadId, timestamp).Failure? <==>
      exists i :: 0 <= i < |sources| && Ask(sources[i], next, threadId, timestamp).Failure?
                  && forall j :: 0 <= j < i ==> AnsweredNull(sources[j], next, threadId, timestamp)
  {
    if exists i :: 0 <= i < |sources| && Ask(sources[i], next, threadId, timestamp).Failure?
                   && forall j :: 0 <= j < i ==> AnsweredNull(sources[j], next, threadId, timestamp) {
      var i :| 0 <= i < |sources| && Ask(sources[i], next, threadId, timestamp).Failure?
               && forall j :: 0 <= j < i ==> AnsweredNull(sources[j], next, threadId, timestamp);
      NavigateFirst(sources, next, threadId, timestamp, i);
    }
  }

  /** The request that shows it: `GET ?action=nextThread&threadId=a&timestamp=1` to a
      service whose one source answers `42` gets a 500 as written and `{timestamp: 42}`
      once the loop runs over the registered sources. */
  lemma NavigationCounterexample(parseInt: string -> Option<int>, items: (int, int) -> Result<seq<Item>, Thrown>)
    requires parseInt("1") == Some(1)
    ensures var answer := (id: string, t: int) => Success(Some(42));
      var svc := Service([Source("other", items, Some(answer), None)]);
      var req := Request("GET", Some(NEXT_THREAD), Some("a"), Some("1"), None, None);
      HandleAsWritten(svc, req, parseInt) == ServerError()
      && Handle(svc, req, parseInt) == Response(200, TimestampBody(Some(42)))
  {
    var answer := (id: string, t: int) => Success(Some(42));
    var svc := Service([Source("other", items, Some(answer), None)]);
    var req := Request("GET", Some(NEXT_THREAD), Some("a"), Some("1"), None, None);
    assert Ask(svc.sources[0], true, "a", 1) == Success(Some(42));
    HandleNavigation(svc, req, parseInt);
  }

  /** The intended navigation answers with the first non-`null` timestamp, asking each
      source's `getNextThreadTimestamp` for `nextThread` and its
      `getPrevThreadTimestamp` for `prevThread`. */
  lemma NavigationAnswersFirst(svc: Service, req: Request, parseInt: string -> Option<int>, i: nat, t: int)
    requires req.httpMethod == "GET" && IsNavigation(req) && ValidNavigation(req, parseInt)
    requires i < |svc.sources|
    requires forall j :: 0 <= j < i ==> AnsweredNull(svc.sources[j], req.action == Some(NEXT_THREAD),
      req.threadId.value, ParseQuery(req.timestamp, parseInt).value)
    requires var m := if req.action == Some(NEXT_THREAD) then svc.sources[i].nextThread else svc.sources[i].prevThread;
      m.Some? && m.value(req.threadId.value, ParseQuery(req.timestamp, parseInt).value) == Success(Some(t))
    ensures Handle(svc, req, parseInt) == Response(200, TimestampBody(Some(t)))
  {
    var next, id, ts := req.action == Some(NEXT_THREAD), req.threadId.value, ParseQuery(req.timestamp, parseInt).value;
    assert Ask(svc.sources[i], next, id, ts) == Success(Some(t));
    NavigateFirst(svc.sources, next, id, ts, i);
    HandleNavigation(svc, req, parseInt);
  }

  /** A valid navigation request answers what the loop over the sources answers. */
  lemma HandleNavigation(svc: Service, req: Request, parseInt: string -> Option<int>)
    requires req.httpMethod == "GET" && IsNavigation(req) && ValidNavigation(req, parseInt)
    ensures var r := Navigate(svc.sources, req.action == Some(NEXT_THREAD), req.threadId.value,
                              ParseQuery(req.timestamp, parseInt).value);
      (r.Failure? ==> Handle(svc, req, parseInt) == ServerError())
      && (r.Success? ==> Handle(svc, req, parseInt) == Response(200, TimestampBody(r.value)))
  {
  }

  /** The loop's answer is the answer of the first source that does not answer `null`. */
  lemma {:induction false} NavigateFirst(sources: seq<Source>, next: bool, threadId: string, timestamp: int, i: nat)
    requires i < |sources|
    requires forall j :: 0 <= j < i ==> AnsweredNull(sources[j], next, threadId, timestamp)
    requires !AnsweredNull(sources[i], next, threadId, timestamp)
    ensures Navigate(sources, next, threadId, timestamp) == Ask(sources[i], next, threadId, timestamp)
  {
    if i > 0 {
      assert AnsweredNull(sources[0], next, threadId, timestamp);
      assert forall j :: 0 <= j < i - 1 ==> sources[1..][j] == sources[j + 1];
      NavigateFirst(sources[1..], next, threadId, timestamp, i - 1);
    }
  }

  /** On the service as constructed the Signal source declares no navigation
      method, so even the intended loop throws and the answer is a 500. */
  lemma FreshServiceCannotNavigate(db: SignalSource.Database, parseJson: string -> Option<MessageJson>,
                                   req: Request, parseInt: string -> Option<int>)
    requires req.httpMethod == "GET" && IsNavigation(req) && ValidNavigation(req, parseInt)
    ensures Handle(NewService(db, parseJson), req, parseInt) == ServerError()
  {
    var svc := NewService(db, parseJson);
    assert svc.sources[1..] == [];
  }

  /** The items page: 400 exactly for an unparsable centre; otherwise the service's
      answer for that centre and the effective count, or a 500 when a source throws. */
  lemma ItemsPageAnswers(svc: Service, req: Request, parseInt: string -> Option<int>)
    requires req.httpMethod == "GET" && !IsNavigation(req)
    ensures ParseQuery(req.center, parseInt).None? <==> Handle(svc, req, parseInt).status == 400
    ensures ParseQuery(req.center, parseInt).Some? ==>
      var r := GetTimelineItems(svc, ParseQuery(req.center, parseInt).value, CountParam(req.count, parseInt));
      (r.Failure? <==> Handle(svc, req, parseInt) == ServerError())
      && (r.Success? ==> Handle(svc, req, parseInt) == Response(200, ItemsBody(r.value)))
  {
  }

  /** A rejected method never reaches the service. */
  lemma MethodCheckFirst(svc1: Service, svc2: Service, req: Request, parseInt: string -> Option<int>)
    requires req.httpMethod != "GET"
    ensures Handle(svc1, req, parseInt) == Handle(svc2, req, parseInt)
    ensures HandleAsWritten(svc1, req, parseInt) == Handle(svc2, req, parseInt)
  {
  }
}
