/** The timeline component's grouping of items into threads, the hidden-thread
    filter, and the test that marks the group holding the centre timestamp. */
module ThreadGroups {
  import opened Wrappers
  import opened Items
  import opened Seqs

  /** A run of consecutive items with the same thread key. */
  datatype ThreadGroup = ThreadGroup(threadId: Option<string>, items: seq<Item>)

  /** One loop step of `groupItemsByThread`: the item joins the last group when
      that group has its thread key (`!==` is false), and opens a new group otherwise. */
  function Extend(groups: seq<ThreadGroup>, x: Item): seq<ThreadGroup> {
    if |groups| == 0 || groups[|groups| - 1].threadId != x.threadId then
      groups + [ThreadGroup(x.threadId, [x])]
    else
      groups[..|groups| - 1] + [ThreadGroup(x.threadId, groups[|groups| - 1].items + [x])]
  }

  /** The items of all groups, group after group. */
  function Members(groups: seq<ThreadGroup>): seq<Item> {
    if |groups| == 0 then [] else Members(groups[..|groups| - 1]) + groups[|groups| - 1].items
  }

  /** A group as the loop leaves it: non-empty, and every item carries the group's key. */
  predicate Homogeneous(g: ThreadGroup) {
    g.items != [] && forall i :: 0 <= i < |g.items| ==> g.items[i].threadId == g.threadId
  }

  /** A partition into maximal runs: every group is homogeneous, and neighbouring
      groups have different keys. */
  predicate Runs(groups: seq<ThreadGroup>) {
    (forall i :: 0 <= i < |groups| ==> Homogeneous(groups[i]))
    && (forall i :: 0 < i < |groups| ==> groups[i - 1].threadId != groups[i].threadId)
  }

  /** `groupItemsByThread(items)`, as the fold of `Extend` over the items. */
  function GroupByThread(items: seq<Item>): seq<ThreadGroup> {
    if |items| == 0 then [] else Extend(GroupByThread(items[..|items| - 1]), items[|items| - 1])
  }

  lemma MembersSnoc(front: seq<ThreadGroup>, g: ThreadGroup)
    ensures Members(front + [g]) == Members(front) + g.items
  {
    assert (front + [g])[..|front|] == front;
  }

  /** Dropping the last group keeps a partition into runs. */
  lemma RunsFront(groups: seq<ThreadGroup>)
    requires Runs(groups) && |groups| > 0
    ensures Runs(groups[..|groups| - 1])
  {
  }

  /** A homogeneous group whose key differs from the last group's extends a partition. */
  lemma RunsSnoc(front: seq<ThreadGroup>, g: ThreadGroup)
    requires Runs(front) && Homogeneous(g)
    requires |front| > 0 ==> front[|front| - 1].threadId != g.threadId
    ensures Runs(front + [g])
  {
    var r := front + [g];
    forall i | 0 < i < |r|
      ensures r[i - 1].threadId != r[i].threadId
    {
      if i < |front| {
        assert r[i - 1] == front[i - 1] && r[i] == front[i];
      }
    }
  }

  /** One step of the loop keeps a partition into runs and appends the item to its members. */
  lemma ExtendRuns(groups: seq<ThreadGroup>, x: Item)
    requires Runs(groups)
    ensures Runs(Extend(groups, x))
    ensures Members(Extend(groups, x)) == Members(groups) + [x]
  {
    var n := |groups|;
    if n == 0 || groups[n - 1].threadId != x.threadId {
      RunsSnoc(groups, ThreadGroup(x.threadId, [x]));
      MembersSnoc(groups, ThreadGroup(x.threadId, [x]));
    } else {
      var last := groups[n - 1];
      var front := groups[..n - 1];
      var grown := ThreadGroup(x.threadId, last.items + [x]);
      assert groups == front + [last];
      RunsFront(groups);
      assert Homogeneous(last);
      assert Homogeneous(grown);
      RunsSnoc(front, grown);
      MembersSnoc(front, grown);
      MembersSnoc(front, last);
    }
  }

  /** The groups partition the items into maximal runs of one thread key. */
  lemma {:induction false} GroupByThreadRuns(items: seq<Item>)
    ensures Runs(GroupByThread(items))
    ensures Members(GroupByThread(items)) == items
  {
    if |items| > 0 {
      var init := items[..|items| - 1];
      GroupByThreadRuns(init);
      ExtendRuns(GroupByThread(init), items[|items| - 1]);
      assert items == init + [items[|items| - 1]];
    }
  }

  /** Removing the last item from the last group of a partition. */
  lemma {:induction false} ShrinkLast(groups: seq<ThreadGroup>, items: seq<Item>)
    requires Runs(groups) && Members(groups) == items && |groups| > 0
    requires |groups[|groups| - 1].items| > 1
    ensures |items| > 0
    ensures var last := groups[|groups| - 1];
      var shorter := groups[..|groups| - 1] + [last.(items := last.items[..|last.items| - 1])];
      Runs(shorter) && Members(shorter) == items[..|items| - 1]
      && groups == Extend(shorter, items[|items| - 1])
  {
    var n := |groups|;
    var last := groups[n - 1];
    var front := groups[..n - 1];
    var x := last.items[|last.items| - 1];
    var short := last.(items := last.items[..|last.items| - 1]);
    var shorter := front + [short];
    assert groups == front + [last];
    assert last.items == short.items + [x];
    MembersSnoc(front, last);
    MembersSnoc(front, short);
    assert items == Members(shorter) + [x];
    assert items[..|items| - 1] == Members(shorter);
    RunsFront(groups);
    assert Homogeneous(last);
    RunsSnoc(front, short);
    assert shorter[..n - 1] == front;
  }

  /** Removing a last group of one item from a partition. */
  lemma {:induction false} DropLast(groups: seq<ThreadGroup>, items: seq<Item>)
    requires Runs(groups) && Members(groups) == items && |groups| > 0
    requires |groups[|groups| - 1].items| == 1
    ensures |items| > 0
    ensures var front := groups[..|groups| - 1];
      Runs(front) && Members(front) == items[..|items| - 1]
      && groups == Extend(front, items[|items| - 1])
  {
    var n := |groups|;
    var last := groups[n - 1];
    var front := groups[..n - 1];
    var x := last.items[0];
    assert groups == front + [last];
    assert last.items == [x];
    MembersSnoc(front, last);
    assert items == Members(front) + [x];
    assert items[..|items| - 1] == Members(front);
    RunsFront(groups);
    assert Homogeneous(last);
  }

  /** Any partition of `items` into maximal runs is the one `groupItemsByThread` builds. */
  lemma {:induction false} RunsAreUnique(items: seq<Item>, groups: seq<ThreadGroup>)
    requires Runs(groups) && Members(groups) == items
    ensures groups == GroupByThread(items)
    decreases |items|
  {
    if |groups| > 0 {
      var n := |groups|;
      var last := groups[n - 1];
      if |last.items| == 1 {
        DropLast(groups, items);
        RunsAreUnique(items[..|items| - 1], groups[..n - 1]);
      } else {
        assert Homogeneous(last);
        ShrinkLast(groups, items);
        RunsAreUnique(items[..|items| - 1], groups[..n - 1] + [last.(items := last.items[..|last.items| - 1])]);
      }
    }
  }

  /** The component's loop: a current group that grows until the key changes. */
  method GroupItemsByThread(items: seq<Item>) returns (groups: seq<ThreadGroup>)
    ensures Runs(groups) && Members(groups) == items
    ensures groups == GroupByThread(items)
  {
    groups := [];
    var i := 0;
    while i < |items|
      invariant 0 <= i <= |items|
      invariant groups == GroupByThread(items[..i])
    {
      var item := items[i];
      assert items[..i + 1][..i] == items[..i];
      if |groups| == 0 || groups[|groups| - 1].threadId != item.threadId {
        groups := groups + [ThreadGroup(item.threadId, [item])];
      } else {
        var current := groups[|groups| - 1];
        groups := groups[..|groups| - 1] + [current.(items := current.items + [item])];
      }
      i := i + 1;
    }
    assert items[..i] == items;
    GroupByThreadRuns(items);
  }

  /** `hiddenThreads.has(group.threadId)`: an `undefined` key is never in the set. */
  predicate IsHidden(g: ThreadGroup, hidden: set<string>) {
    HiddenKey(g.threadId, hidden)
  }

  /** `groups.filter(group => !hiddenThreads.has(group.threadId))`. */
  function VisibleGroups(groups: seq<ThreadGroup>, hidden: set<string>): (r: seq<ThreadGroup>)
    ensures forall g :: g in r ==> g in groups && !IsHidden(g, hidden)
    ensures forall g :: g in groups && !IsHidden(g, hidden) ==> g in r
  {
    FilterSeq((g: ThreadGroup) => !IsHidden(g, hidden), groups)
  }

  /** The filter keeps the original order: it works group by group. */
  lemma VisibleAppend(a: seq<ThreadGroup>, b: seq<ThreadGroup>, hidden: set<string>)
    ensures VisibleGroups(a + b, hidden) == VisibleGroups(a, hidden) + VisibleGroups(b, hidden)
  {
    FilterAppend((g: ThreadGroup) => !IsHidden(g, hidden), a, b);
  }

  /** With nothing hidden, every group is shown. */
  lemma {:induction false} NothingHidden(groups: seq<ThreadGroup>)
    ensures VisibleGroups(groups, {}) == groups
  {
    if |groups| > 0 {
      NothingHidden(groups[1..]);
      assert groups == [groups[0]] + groups[1..];
      VisibleAppend([groups[0]], groups[1..], {});
    }
  }

  /** The timeline's `getHiddenThreads()`: empty on the server (no `window`) and
      when nothing truthy is stored; otherwise the set of the parsed list, where
      `parse` answers `None` when `JSON.parse` throws. */
  function HiddenThreads(inBrowser: bool, stored: Option<string>, parse: string -> Option<seq<string>>)
    : (r: Result<set<string>, Thrown>)
    ensures !inBrowser || !Truthy(stored) ==> r == Success({})
    ensures inBrowser && Truthy(stored) ==>
      (r.Success? <==> parse(stored.value).Some?)
      && (r.Success? ==> forall id :: id in r.value <==> id in parse(stored.value).value)
  {
    if !inBrowser then Success({})
    else if !Truthy(stored) then Success({})
    else match parse(stored.value)
      case None => Failure(Thrown("JSON.parse: invalid hiddenThreads"))
      case Some(ids) => Success(set id | id in ids)
  }

  /** `pat` occurs in `s` at position `j`. */
  predicate OccursAt(s: string, pat: string, j: nat) {
    j + |pat| <= |s| && s[j..j + |pat|] == pat
  }

  /** The first position at or after `from` where `pat` occurs in `s`. */
  function IndexFrom(s: string, pat: string, from: nat): (r: Option<nat>)
    ensures r.Some? ==> from <= r.value && OccursAt(s, pat, r.value)
    ensures r.Some? ==> forall j :: from <= j < r.value ==> !OccursAt(s, pat, j)
    ensures r.None? ==> forall j :: from <= j ==> !OccursAt(s, pat, j)
    decreases |s| - from
  {
    if from + |pat| > |s| then None
    else if s[from..from + |pat|] == pat then Some(from)
    else IndexFrom(s, pat, from + 1)
  }

  /** `s.indexOf(pat)` with `-1` as `None`: the first occurrence. */
  function IndexOf(s: string, pat: string): (r: Option<nat>)
    ensures r.Some? ==> OccursAt(s, pat, r.value) && forall j: nat :: j < r.value ==> !OccursAt(s, pat, j)
    ensures r.None? <==> forall j: nat :: !OccursAt(s, pat, j)
  {
    IndexFrom(s, pat, 0)
  }

  /** `s.replace(pat, '')` with a string pattern: only the first occurrence goes. */
  function RemoveFirst(s: string, pat: string): (r: string)
    ensures IndexOf(s, pat).None? ==> r == s
    ensures IndexOf(s, pat).Some? ==> |r| == |s| - |pat|
    ensures IndexOf(s, pat).Some? ==> s == r[..IndexOf(s, pat).value] + pat + r[IndexOf(s, pat).value..]
  {
    match IndexOf(s, pat)
    case None => s
    case Some(i) =>
      var r := s[..i] + s[i + |pat|..];
      assert s == s[..i] + s[i..i + |pat|] + s[i + |pat|..];
      assert r[..i] == s[..i] && r[i..] == s[i + |pat|..];
      r
  }

  const HASH_PREFIX: string := "#t="

  /** The centre timestamp: the number in the URL hash, or the clock when there is
      no hash. `parseInt` answers `None` for `NaN`, which equals no timestamp. */
  function CenterTimestamp(hash: string, now: int, parseInt: string -> Option<int>): (c: Option<int>)
    ensures hash == "" ==> c == Some(now)
    ensures hash != "" ==> c == parseInt(RemoveFirst(hash, HASH_PREFIX))
  {
    if hash != "" then parseInt(RemoveFirst(hash, HASH_PREFIX)) else Some(now)
  }

  /** A hash written as `#t=` followed by a timestamp centres the timeline on
      that timestamp, whatever the clock says. */
  lemma CentreOfLink(digits: string, now: int, parseInt: string -> Option<int>)
    ensures CenterTimestamp(HASH_PREFIX + digits, now, parseInt) == parseInt(digits)
  {
    var hash := HASH_PREFIX + digits;
    assert OccursAt(hash, HASH_PREFIX, 0);
    assert (hash[..0] + hash[3..]) == digits;
  }

  /** `items.some(item => item.timestamp === centerTimestamp)`. */
  function SomeAt(items: seq<Item>, centre: Option<int>): (r: bool)
    ensures r <==> centre.Some? && exists i :: 0 <= i < |items| && items[i].timestamp == centre.value
  {
    if |items| == 0 then false
    else if centre.Some? && items[0].timestamp == centre.value then true
    else
      var r := SomeAt(items[1..], centre);
      assert forall i :: 1 <= i < |items| ==> items[i] == items[1..][i - 1];
      r
  }

  /** The group that receives the scroll target. */
  predicate IsCentreGroup(g: ThreadGroup, centre: Option<int>) {
    SomeAt(g.items, centre)
  }

  /** An item is a member exactly when some group holds it. */
  lemma {:induction false} MemberGroup(groups: seq<ThreadGroup>, x: Item)
    ensures x in Members(groups) <==> exists k :: 0 <= k < |groups| && x in groups[k].items
  {
    if |groups| > 0 {
      var n := |groups|;
      var front := groups[..n - 1];
      MemberGroup(front, x);
      assert Members(groups) == Members(front) + groups[n - 1].items;
      if x in Members(front) {
        var k :| 0 <= k < |front| && x in front[k].items;
        assert groups[k] == front[k];
      }
      if exists k :: 0 <= k < n && x in groups[k].items {
        var k :| 0 <= k < n && x in groups[k].items;
        if k < n - 1 {
          assert front[k] == groups[k];
        }
      }
    }
  }

  /** A thread key the hidden set hides. */
  predicate HiddenKey(threadId: Option<string>, hidden: set<string>) {
    threadId.Some? && threadId.value in hidden
  }

  /** An item whose thread is not hidden is shown in a visible group. */
  lemma ShownItem(groups: seq<ThreadGroup>, hidden: set<string>, x: Item)
    requires Runs(groups) && x in Members(groups) && !HiddenKey(x.threadId, hidden)
    ensures exists g :: g in VisibleGroups(groups, hidden) && x in g.items
  {
    MemberGroup(groups, x);
    var k :| 0 <= k < |groups| && x in groups[k].items;
    var g := groups[k];
    assert Homogeneous(g);
    var j :| 0 <= j < |g.items| && g.items[j] == x;
    assert g.threadId == x.threadId;
    assert g in groups;
  }

  /** Every item of a visible group has a thread that is not hidden. */
  lemma VisibleItem(groups: seq<ThreadGroup>, hidden: set<string>, g: ThreadGroup, j: nat)
    requires Runs(groups) && g in VisibleGroups(groups, hidden) && j < |g.items|
    ensures g.items[j] in Members(groups) && !HiddenKey(g.items[j].threadId, hidden)
  {
    var k :| 0 <= k < |groups| && groups[k] == g;
    assert Homogeneous(groups[k]);
    MemberGroup(groups, g.items[j]);
  }

  /** Some visible group is marked as the scroll target exactly when the centre
      timestamp belongs to an item whose thread is not hidden. */
  lemma CentreGroupShown(items: seq<Item>, hidden: set<string>, centre: int)
    ensures (exists g :: g in VisibleGroups(GroupByThread(items), hidden) && IsCentreGroup(g, Some(centre)))
        <==> exists i :: 0 <= i < |items| && items[i].timestamp == centre && !HiddenKey(items[i].threadId, hidden)
  {
    var groups := GroupByThread(items);
    GroupByThreadRuns(items);
    if exists i :: 0 <= i < |items| && items[i].timestamp == centre && !HiddenKey(items[i].threadId, hidden) {
      var i :| 0 <= i < |items| && items[i].timestamp == centre && !HiddenKey(items[i].threadId, hidden);
      ShownItem(groups, hidden, items[i]);
      var g :| g in VisibleGroups(groups, hidden) && items[i] in g.items;
      var j :| 0 <= j < |g.items| && g.items[j] == items[i];
      assert IsCentreGroup(g, Some(centre));
    }
    if exists g :: g in VisibleGroups(groups, hidden) && IsCentreGroup(g, Some(centre)) {
      var g :| g in VisibleGroups(groups, hidden) && IsCentreGroup(g, Some(centre));
      var j :| 0 <= j < |g.items| && g.items[j].timestamp == centre;
      VisibleItem(groups, hidden, g, j);
      var i :| 0 <= i < |items| && items[i] == g.items[j];
    }
  }
}
