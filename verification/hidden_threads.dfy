/** The global control pane's hidden-thread list: the stored list read back, a
    thread unhidden, and the count, list and reset button the pane shows. Local
    storage is a parameter (`stored`, the raw item) and so is `JSON.parse`
    (`parse`, which answers `None` where it throws). */
module HiddenThreads {
  import opened Wrappers
  import opened Items
  import opened Seqs
  import ThreadGroups

  /** The pane's `getHiddenThreads()`: nothing stored, or an empty string, gives no
      ids; anything else is parsed. */
  function StoredList(stored: Option<string>, parse: string -> Option<seq<string>>): (r: Result<seq<string>, Thrown>) {
    if !Truthy(stored) then Success([])
    else match parse(stored.value)
      case None => Failure(Thrown("JSON.parse: invalid hiddenThreads"))
      case Some(ids) => Success(ids)
  }

  /** The pane's list and the timeline's hidden set, read from the same stored item in
      the browser, fail together and otherwise hold the same ids; with nothing stored
      both are empty. */
  lemma PaneAgreesWithTimeline(stored: Option<string>, parse: string -> Option<seq<string>>)
    ensures !Truthy(stored) ==> StoredList(stored, parse) == Success([])
    ensures StoredList(stored, parse).Success? <==> ThreadGroups.HiddenThreads(true, stored, parse).Success?
    ensures StoredList(stored, parse).Success? ==>
      forall id :: id in StoredList(stored, parse).value <==> id in ThreadGroups.HiddenThreads(true, stored, parse).value
  {
  }

  /** `ids.filter(id => id !== threadId)`. */
  function Unhide(ids: seq<string>, threadId: string): seq<string> {
    FilterSeq((id: string) => id != threadId, ids)
  }

  /** Unhiding removes every occurrence of the thread and keeps every other id as
      often as it was there. */
  lemma {:induction false} UnhideCounts(ids: seq<string>, threadId: string)
    ensures multiset(Unhide(ids, threadId)) == multiset(ids)[threadId := 0]
  {
    if ids != [] {
      UnhideCounts(ids[1..], threadId);
      var head := if ids[0] != threadId then [ids[0]] else [];
      assert Unhide(ids, threadId) == head + Unhide(ids[1..], threadId);
      assert ids == [ids[0]] + ids[1..];
      assert multiset(ids) == multiset{ids[0]} + multiset(ids[1..]);
      assert multiset(Unhide(ids, threadId)) == multiset(head) + multiset(Unhide(ids[1..], threadId));
    }
  }

  /** Unhiding works id by id: the kept ids stay in their original order. */
  lemma UnhideAppend(a: seq<string>, b: seq<string>, threadId: string)
    ensures Unhide(a + b, threadId) == Unhide(a, threadId) + Unhide(b, threadId)
  {
    FilterAppend((id: string) => id != threadId, a, b);
  }

  /** Unhiding a thread that is not in the list changes nothing. */
  lemma {:induction false} UnhideAbsent(ids: seq<string>, threadId: string)
    requires threadId !in ids
    ensures Unhide(ids, threadId) == ids
  {
    if ids != [] {
      UnhideAbsent(ids[1..], threadId);
      assert ids == [ids[0]] + ids[1..];
    }
  }

  /** Unhiding twice is unhiding once. */
  lemma UnhideIdempotent(ids: seq<string>, threadId: string)
    ensures Unhide(Unhide(ids, threadId), threadId) == Unhide(ids, threadId)
  {
    UnhideCounts(ids, threadId);
    assert threadId !in multiset(Unhide(ids, threadId));
    UnhideAbsent(Unhide(ids, threadId), threadId);
  }

  /** `unhideThread(threadId)`: the stored list without the thread, which the pane
      writes back before reloading. */
  function UnhideThread(stored: Option<string>, parse: string -> Option<seq<string>>, threadId: string)
    : (r: Result<seq<string>, Thrown>)
  {
    match StoredList(stored, parse)
    case Failure(e) => Failure(e)
    case Success(ids) => Success(Unhide(ids, threadId))
  }

  /** Unhiding fails only where reading the stored list fails; otherwise the thread is
      gone from the list written back and every other id keeps its count. */
  lemma UnhideThreadRemoves(stored: Option<string>, parse: string -> Option<seq<string>>, threadId: string)
    ensures UnhideThread(stored, parse, threadId).Failure? <==> StoredList(stored, parse).Failure?
    ensures UnhideThread(stored, parse, threadId).Success? ==>
      threadId !in UnhideThread(stored, parse, threadId).value
      && multiset(UnhideThread(stored, parse, threadId).value) == multiset(StoredList(stored, parse).value)[threadId := 0]
  {
    if StoredList(stored, parse).Success? {
      UnhideCounts(StoredList(stored, parse).value, threadId);
      assert threadId !in multiset(UnhideThread(stored, parse, threadId).value);
    }
  }

  /** After unhiding, the timeline shows the unhidden thread's groups and hides every
      other group exactly as before. */
  lemma UnhideShowsThread(ids: seq<string>, threadId: string, g: ThreadGroups.ThreadGroup)
    ensures var after := set id | id in Unhide(ids, threadId);
      var before := set id | id in ids;
      (g.threadId == Some(threadId) ==> !ThreadGroups.IsHidden(g, after))
      && (g.threadId != Some(threadId) ==> (ThreadGroups.IsHidden(g, after) <==> ThreadGroups.IsHidden(g, before)))
  {
    UnhideCounts(ids, threadId);
    if g.threadId.Some? {
      var t := g.threadId.value;
      assert t in Unhide(ids, threadId) <==> t in multiset(Unhide(ids, threadId));
      assert t in ids <==> t in multiset(ids);
    }
  }

  /** What the open pane shows for a list. */
  datatype PaneView = PaneView(count: nat, listed: seq<string>, resetButton: bool, emptyNote: bool)

  /** The open pane: the count in the heading, one row per id, and either the reset
      button or the "No hidden threads" note. */
  function Pane(ids: seq<string>): (v: PaneView)
    ensures v.count == |v.listed| && v.listed == ids
    ensures v.resetButton <==> v.count > 0
    ensures v.emptyNote <==> !v.resetButton
  {
    PaneView(|ids|, ids, |ids| > 0, |ids| == 0)
  }

  /** After unhiding a listed thread, the pane counts one row fewer per occurrence,
      and the reset button goes only when nothing else is hidden. */
  lemma PaneAfterUnhide(ids: seq<string>, threadId: string)
    ensures Pane(Unhide(ids, threadId)).count == |ids| - multiset(ids)[threadId]
    ensures Pane(Unhide(ids, threadId)).resetButton <==> exists id :: id in ids && id != threadId
  {
    UnhideCounts(ids, threadId);
    var r := Unhide(ids, threadId);
    assert |multiset(r)| == |r|;
    assert |multiset(ids)| == |ids|;
    if exists id :: id in ids && id != threadId {
      var id :| id in ids && id != threadId;
      assert id in multiset(ids);
      assert id in multiset(r);
    }
    if |r| > 0 {
      assert r[0] in r;
    }
  }
}
