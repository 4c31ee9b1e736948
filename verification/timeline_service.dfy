/** The timeline service: the registered sources and the newest-first merge of
    what they return. `Promise.all` becomes evaluation of every source in
    registration order. */
module TimelineService {
  import opened Wrappers
  import opened Items
  import opened Seqs
  import opened Recency
  import SignalSource

  /** What a thread-navigation method answers: a timestamp, `null`, or a throw. */
  type NavAnswer = Result<Option<int>, Thrown>

  /** A registered source. The navigation methods are `None` when the source
      does not declare them: calling them then throws. */
  datatype Source = Source(
    kind: string,
    getItems: (int, int) -> Result<seq<Item>, Thrown>,
    nextThread: Option<(string, int) -> NavAnswer>,
    prevThread: Option<(string, int) -> NavAnswer>)

  datatype Service = Service(sources: seq<Source>)

  /** The Signal source over a given database; it declares no navigation methods. */
  function SignalMessageSource(db: SignalSource.Database, parseJson: string -> Option<MessageJson>): (s: Source)
    ensures s.kind == SignalSource.KIND
    ensures s.nextThread.None? && s.prevThread.None?
  {
    Source(SignalSource.KIND,
      (startTime: int, count: int) => SignalSource.GetItems(db, parseJson, startTime, count),
      None, None)
  }

  /** `new TimelineService()`: exactly the Signal source is registered. */
  function NewService(db: SignalSource.Database, parseJson: string -> Option<MessageJson>): (svc: Service)
    ensures |svc.sources| == 1
    ensures svc.sources[0].kind == SignalSource.KIND
    ensures forall startTime, count :: svc.sources[0].getItems(startTime, count)
                                      == SignalSource.GetItems(db, parseJson, startTime, count)
  {
    Service([SignalMessageSource(db, parseJson)])
  }

  /** `registerSource`: appends, keeping every earlier source where it was. */
  function RegisterSource(svc: Service, source: Source): (r: Service)
    ensures |r.sources| == |svc.sources| + 1
    ensures r.sources[..|svc.sources|] == svc.sources
    ensures r.sources[|svc.sources|] == source
  {
    Service(svc.sources + [source])
  }

  /** Flatten, sort newest first (stably), keep `slice(0, count)`. */
  function Merge(results: seq<seq<Item>>, count: int): (r: seq<Item>)
    ensures NewestFirst(r, Stamp)
    ensures multiset(r) <= multiset(Flatten(results))
    ensures count >= 0 ==> |r| == Min(count, |Flatten(results)|)
    ensures count < 0 ==> |r| == if |Flatten(results)| + count < 0 then 0 else |Flatten(results)| + count
  {
    var sorted := SortNewestFirst(Flatten(results), Stamp);
    var r := Slice(sorted, count);
    SortPermutes(Flatten(results), Stamp);
    assert sorted == r + sorted[|r|..];
    r
  }

  /** Every source's answer to `getItems(startTime, count)`, or the first throw. */
  function Gather(sources: seq<Source>, startTime: int, count: int): (r: Result<seq<seq<Item>>, Thrown>)
    ensures r.Success? <==> forall i :: 0 <= i < |sources| ==> sources[i].getItems(startTime, count).Success?
    ensures r.Success? ==> |r.value| == |sources|
    ensures r.Success? ==> forall i :: 0 <= i < |sources| ==>
      r.value[i] == sources[i].getItems(startTime, count).value
    ensures r.Failure? ==> exists i :: 0 <= i < |sources| && sources[i].getItems(startTime, count) == Failure(r.error)
  {
    if sources == [] then Success([])
    else
      var first := sources[0].getItems(startTime, count);
      if first.Failure? then Failure(first.error)
      else
        var rest := Gather(sources[1..], startTime, count);
        if rest.Failure? then
          assert forall i :: 1 <= i < |sources| ==> sources[i] == sources[1..][i - 1];
          Failure(rest.error)
        else
          assert forall i :: 1 <= i < |sources| ==> sources[i] == sources[1..][i - 1];
          Success([first.value] + rest.value)
  }

  /** `getTimelineItems(startTime, count)`. */
  function GetTimelineItems(svc: Service, startTime: int, count: int): (r: Result<seq<Item>, Thrown>)
    ensures r.Success? <==> forall i :: 0 <= i < |svc.sources| ==> svc.sources[i].getItems(startTime, count).Success?
    ensures r.Success? ==> NewestFirst(r.value, Stamp)
    ensures r.Success? ==> r.value == Merge(Gather(svc.sources, startTime, count).value, count)
  {
    var answers := Gather(svc.sources, startTime, count);
    if answers.Failure? then Failure(answers.error)
    else Success(Merge(answers.value, count))
  }

  /** The merge is a top-k: what it drops is never newer than what it keeps. */
  lemma MergeIsTopK(results: seq<seq<Item>>, count: int)
    ensures var r := Merge(results, count);
            var dropped := SortNewestFirst(Flatten(results), Stamp)[|r|..];
            && multiset(r) + multiset(dropped) == multiset(Flatten(results))
            && forall x, y :: x in r && y in dropped ==> y.timestamp <= x.timestamp
  {
    var sorted := SortNewestFirst(Flatten(results), Stamp);
    var r := Merge(results, count);
    SortPermutes(Flatten(results), Stamp);
    SplitNewestFirst(sorted, |r|, Stamp);
  }

  /** Ties keep flatten order, so earlier-registered sources come first: of each
      timestamp, the merge keeps a prefix of the items in flatten order. */
  lemma MergeKeepsTies(results: seq<seq<Item>>, count: int, t: int)
    ensures var kept := At(Merge(results, count), Stamp, t);
            |kept| <= |At(Flatten(results), Stamp, t)| && kept == At(Flatten(results), Stamp, t)[..|kept|]
  {
    var sorted := SortNewestFirst(Flatten(results), Stamp);
    var r := Merge(results, count);
    SortKeepsTies(Flatten(results), Stamp, t);
    TakeAt(sorted, |r|, Stamp, t);
    AtShorter(Flatten(results), Stamp, t);
    assert r == Take(sorted, |r|);
  }

  /** A source that answers with the newest-first top `k` of its candidates. */
  function TopK<T>(c: seq<T>, key: T -> int, k: nat): (r: seq<T>)
    ensures |r| == Min(k, |c|)
  {
    Take(SortNewestFirst(c, key), k)
  }

  lemma TopKNewestFirst<T>(c: seq<T>, key: T -> int, k: nat)
    ensures NewestFirst(TopK(c, key, k), key)
  {
    TakeNewestFirst(SortNewestFirst(c, key), k, key);
  }

  function MapTopK<T>(cs: seq<seq<T>>, key: T -> int, k: nat): (r: seq<seq<T>>)
    ensures |r| == |cs|
    ensures forall i :: 0 <= i < |cs| ==> r[i] == TopK(cs[i], key, k)
  {
    seq(|cs|, i requires 0 <= i < |cs| => TopK(cs[i], key, k))
  }

  lemma TopKAt<T>(c: seq<T>, key: T -> int, k: nat, t: int)
    ensures At(TopK(c, key, k), key, t) == At(c, key, t)[..Clamp(k - Above(c, key, t), |At(c, key, t)|)]
  {
    var sorted := SortNewestFirst(c, key);
    assert TopK(c, key, k) == Take(sorted, k);
    TakeAt(sorted, k, key, t);
    SortKeepsTies(c, key, t);
    SortKeepsAbove(c, key, t);
  }

  lemma TopKAbove<T>(c: seq<T>, key: T -> int, k: nat, t: int)
    ensures Above(TopK(c, key, k), key, t) == Min(k, Above(c, key, t))
  {
    var sorted := SortNewestFirst(c, key);
    assert TopK(c, key, k) == Take(sorted, k);
    TakeAbove(sorted, k, key, t);
    SortKeepsAbove(c, key, t);
  }

  /** The per-timestamp arithmetic behind `ReplaceByTopK`: the ties at `t`
      kept from `P + X + Q`, when `X` is first cut down to the ties a top `k`
      of its own block keeps. */
  lemma PrefixOfTies<T>(l: seq<T>, r: seq<T>, p: seq<T>, x: seq<T>, x': seq<T>, q: seq<T>,
                        al: int, ar: int, ap: int, ax: nat, ax': int, aq: int, k: nat)
    requires x' == x[..Clamp(k - ax, |x|)] && ax' == Min(k, ax)
    requires l == p + x' + q && al == ap + ax' + aq
    requires r == p + x + q && ar == ap + ax + aq
    requires ap >= 0 && aq >= 0
    ensures l[..Clamp(k - al, |l|)] == r[..Clamp(k - ar, |r|)]
  {
    if ax < k {
      var m := k - ap - ax - aq;
      if m > 0 {
        if m <= |p| {
          assert l[..m] == p[..m] == r[..m];
        } else if m <= |p| + |x'| {
          assert l[..m] == p + x'[..m - |p|];
          assert r[..m] == p + x[..m - |p|];
        } else {
          assert x' == x;
        }
      }
    }
  }

  /** Replacing one block of the merge input by its own top `k` leaves the top `k` unchanged. */
  lemma ReplaceByTopK<T>(p: seq<T>, x: seq<T>, q: seq<T>, key: T -> int, k: nat)
    ensures TopK(p + TopK(x, key, k) + q, key, k) == TopK(p + x + q, key, k)
  {
    var l := p + TopK(x, key, k) + q;
    var r := p + x + q;
    forall t
      ensures At(TopK(l, key, k), key, t) == At(TopK(r, key, k), key, t)
    {
      ReplaceByTopKAt(p, x, q, key, k, t);
    }
    TopKNewestFirst(l, key, k);
    TopKNewestFirst(r, key, k);
    NewestFirstUnique(TopK(l, key, k), TopK(r, key, k), key);
  }

  lemma ThreeAt<T>(p: seq<T>, x: seq<T>, q: seq<T>, key: T -> int, t: int)
    ensures At(p + x + q, key, t) == At(p, key, t) + At(x, key, t) + At(q, key, t)
    ensures Above(p + x + q, key, t) == Above(p, key, t) + Above(x, key, t) + Above(q, key, t)
  {
    AtAppend(p, x, key, t);
    AtAppend(p + x, q, key, t);
  }

  /** At one timestamp, the ties a top `k` keeps from `p + x + q` do not change
      when `x` is replaced by any `x'` that keeps what a top `k` of `x` keeps. */
  lemma ReplaceAt<T>(p: seq<T>, x: seq<T>, x': seq<T>, q: seq<T>, key: T -> int, k: nat, t: int)
    requires At(x', key, t) == At(x, key, t)[..Clamp(k - Above(x, key, t), |At(x, key, t)|)]
    requires Above(x', key, t) == Min(k, Above(x, key, t))
    ensures At(p + x' + q, key, t)[..Clamp(k - Above(p + x' + q, key, t), |At(p + x' + q, key, t)|)]
         == At(p + x + q, key, t)[..Clamp(k - Above(p + x + q, key, t), |At(p + x + q, key, t)|)]
  {
    ThreeAt(p, x', q, key, t);
    ThreeAt(p, x, q, key, t);
    PrefixOfTies(At(p + x' + q, key, t), At(p + x + q, key, t),
      At(p, key, t), At(x, key, t), At(x', key, t), At(q, key, t),
      Above(p + x' + q, key, t), Above(p + x + q, key, t),
      Above(p, key, t), Above(x, key, t), Above(x', key, t), Above(q, key, t), k);
  }

  lemma ReplaceByTopKAt<T>(p: seq<T>, x: seq<T>, q: seq<T>, key: T -> int, k: nat, t: int)
    ensures At(TopK(p + TopK(x, key, k) + q, key, k), key, t) == At(TopK(p + x + q, key, k), key, t)
  {
    TopKAt(x, key, k, t);
    TopKAbove(x, key, k, t);
    ReplaceAt(p, x, TopK(x, key, k), q, key, k, t);
    TopKAt(p + TopK(x, key, k) + q, key, k, t);
    TopKAt(p + x + q, key, k, t);
  }

  lemma ReplaceFirstByTopK<T>(x: seq<T>, q: seq<T>, key: T -> int, k: nat)
    ensures TopK(TopK(x, key, k) + q, key, k) == TopK(x + q, key, k)
  {
    ReplaceByTopK([], x, q, key, k);
    assert [] + TopK(x, key, k) + q == TopK(x, key, k) + q;
    assert [] + x + q == x + q;
  }

  lemma ReplaceLastByTopK<T>(p: seq<T>, x: seq<T>, key: T -> int, k: nat)
    ensures TopK(p + TopK(x, key, k), key, k) == TopK(p + x, key, k)
  {
    ReplaceByTopK(p, x, [], key, k);
    assert p + TopK(x, key, k) + [] == p + TopK(x, key, k);
    assert p + x + [] == p + x;
  }

  lemma MapTopKSnoc<T>(cs: seq<seq<T>>, key: T -> int, k: nat)
    requires cs != []
    ensures MapTopK(cs, key, k) == MapTopK(cs[..|cs| - 1], key, k) + [TopK(cs[|cs| - 1], key, k)]
  {
  }

  /** Asking every source for its own top `k` is enough: the merged top `k`
      equals the top `k` of all candidates taken together. */
  lemma {:induction false} TopKOfTopKs<T>(cs: seq<seq<T>>, key: T -> int, k: nat)
    ensures TopK(Flatten(MapTopK(cs, key, k)), key, k) == TopK(Flatten(cs), key, k)
  {
    if cs != [] {
      var init, last := cs[..|cs| - 1], cs[|cs| - 1];
      assert cs == init + [last];
      MapTopKSnoc(cs, key, k);
      FlattenSnoc(MapTopK(init, key, k), TopK(last, key, k));
      FlattenSnoc(init, last);
      var fm, fi := Flatten(MapTopK(init, key, k)), Flatten(init);
      TopKOfTopKs(init, key, k);
      ReplaceFirstByTopK(fm, TopK(last, key, k), key, k);
      ReplaceFirstByTopK(fi, TopK(last, key, k), key, k);
      ReplaceLastByTopK(fi, last, key, k);
    }
  }

  /** The comment's claim about the service: when every source returns the
      newest-first top `count` of its candidates, the service returns the top
      `count` of all candidates together. */
  lemma RequestingCountSuffices(svc: Service, cands: seq<seq<Item>>, startTime: int, count: nat)
    requires |cands| == |svc.sources|
    requires forall i :: 0 <= i < |svc.sources| ==>
      svc.sources[i].getItems(startTime, count) == Success(TopK(cands[i], Stamp, count))
    ensures GetTimelineItems(svc, startTime, count) == Success(TopK(Flatten(cands), Stamp, count))
  {
    var answers := Gather(svc.sources, startTime, count);
    assert answers.value == MapTopK(cands, Stamp, count);
    TopKOfTopKs(cands, Stamp, count);
  }

  /** The Signal source answers with the newest-first top `count` of its
      candidates (the rows at or before `startTime`), or all of them sorted
      when `count` is negative. */
  lemma SignalAnswersTopK(db: SignalSource.Database, parseJson: string -> Option<MessageJson>, startTime: int, count: int)
    requires SignalSource.GetItems(db, parseJson, startTime, count).Success?
    ensures count >= 0 ==> SignalSource.GetItems(db, parseJson, startTime, count).value
                           == TopK(SignalSource.Candidates(db, parseJson, startTime), Stamp, count)
    ensures count < 0 ==> SignalSource.GetItems(db, parseJson, startTime, count).value
                          == SortNewestFirst(SignalSource.Candidates(db, parseJson, startTime), Stamp)
  {
    var f := (row: SignalSource.ResultRow) => SignalSource.ToItem(row, parseJson);
    var w := SignalSource.Where(SignalSource.Join(db), startTime);
    var rows := SignalSource.Query(db, startTime, count);
    var items := SignalSource.GetItems(db, parseJson, startTime, count).value;
    assert items == MapSeq(f, rows);
    assert KeepsKey(f, SignalSource.SentAt, Stamp);
    MapSort(f, w, SignalSource.SentAt, Stamp);
    if count >= 0 {
      MapTake(f, SortNewestFirst(w, SignalSource.SentAt), count);
    }
  }

  /** End to end: a fresh service asked for `count >= 0` items returns the
      newest-first top `count` of the Signal candidates, whenever it returns. */
  lemma FreshServiceReturnsTopK(db: SignalSource.Database, parseJson: string -> Option<MessageJson>, startTime: int, count: nat)
    requires SignalSource.GetItems(db, parseJson, startTime, count).Success?
    ensures GetTimelineItems(NewService(db, parseJson), startTime, count)
         == Success(TopK(SignalSource.Candidates(db, parseJson, startTime), Stamp, count))
  {
    var c := SignalSource.Candidates(db, parseJson, startTime);
    SignalAnswersTopK(db, parseJson, startTime, count);
    RequestingCountSuffices(NewService(db, parseJson), [c], startTime, count);
    assert Flatten([c]) == c + Flatten([]);
    assert c + [] == c;
  }
}
