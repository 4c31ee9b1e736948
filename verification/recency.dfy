/** Newest-first ordering by an integer key: JavaScript's stable
    `sort((a, b) => key(b) - key(a))`, and the prefix `slice(0, count)`.

    The sort is characterised without reference to its algorithm: it is the
    only newest-first sequence that keeps, for every key value `t`, the
    subsequence `At(s, key, t)` of the input's elements with key `t`. */
module Recency {
  import opened Seqs

  /** Keys never increase from left to right. */
  predicate NewestFirst<T>(s: seq<T>, key: T -> int) {
    forall i, j :: 0 <= i < j < |s| ==> key(s[i]) >= key(s[j])
  }

  /** `[x]` when `x` has key `t`, otherwise nothing. */
  function Tie<T>(x: T, key: T -> int, t: int): (r: seq<T>)
    ensures |r| <= 1
  {
    if key(x) == t then [x] else []
  }

  /** The elements among the first `n` of `s` whose key is exactly `t`, in
      their order in `s`. Recursing on the length, not on a slice, keeps the
      unfolding from building new sequences. */
  function AtPrefix<T>(s: seq<T>, n: nat, key: T -> int, t: int): seq<T>
    requires n <= |s|
  {
    if n == 0 then [] else AtPrefix(s, n - 1, key, t) + Tie(s[n - 1], key, t)
  }

  /** The elements of `s` whose key is exactly `t`, in their order in `s`. */
  function At<T>(s: seq<T>, key: T -> int, t: int): seq<T> {
    AtPrefix(s, |s|, key, t)
  }

  /** How many of the first `n` elements of `s` have a key strictly greater than `t`. */
  function AbovePrefix<T>(s: seq<T>, n: nat, key: T -> int, t: int): nat
    requires n <= |s|
  {
    if n == 0 then 0 else AbovePrefix(s, n - 1, key, t) + (if key(s[n - 1]) > t then 1 else 0)
  }

  /** How many elements of `s` have a key strictly greater than `t`. */
  function Above<T>(s: seq<T>, key: T -> int, t: int): nat {
    AbovePrefix(s, |s|, key, t)
  }

  /** Both counts look only at the first `n` elements. */
  lemma {:induction false} PrefixAgree<T>(s: seq<T>, u: seq<T>, n: nat, key: T -> int, t: int)
    requires n <= |s| && n <= |u|
    requires forall i :: 0 <= i < n ==> s[i] == u[i]
    ensures AtPrefix(s, n, key, t) == AtPrefix(u, n, key, t)
    ensures AbovePrefix(s, n, key, t) == AbovePrefix(u, n, key, t)
  {
    if n > 0 {
      PrefixAgree(s, u, n - 1, key, t);
    }
  }

  /** Selecting never lengthens. */
  lemma {:induction false} AtPrefixShorter<T>(s: seq<T>, n: nat, key: T -> int, t: int)
    requires n <= |s|
    ensures |AtPrefix(s, n, key, t)| <= n
    ensures AbovePrefix(s, n, key, t) <= n
  {
    if n > 0 {
      AtPrefixShorter(s, n - 1, key, t);
    }
  }

  lemma AtShorter<T>(s: seq<T>, key: T -> int, t: int)
    ensures |At(s, key, t)| <= |s|
    ensures Above(s, key, t) <= |s|
  {
    AtPrefixShorter(s, |s|, key, t);
  }

  /** Appending one element appends its tie and may count it. */
  lemma AtSnoc<T>(s: seq<T>, x: T, key: T -> int, t: int)
    ensures At(s + [x], key, t) == At(s, key, t) + Tie(x, key, t)
    ensures Above(s + [x], key, t) == Above(s, key, t) + (if key(x) > t then 1 else 0)
  {
    PrefixAgree(s + [x], s, |s|, key, t);
  }

  lemma {:induction false} AtAppend<T>(a: seq<T>, b: seq<T>, key: T -> int, t: int)
    ensures At(a + b, key, t) == At(a, key, t) + At(b, key, t)
    ensures Above(a + b, key, t) == Above(a, key, t) + Above(b, key, t)
  {
    if b == [] {
      assert a + b == a;
    } else {
      var b', y := b[..|b| - 1], b[|b| - 1];
      assert b == b' + [y];
      assert a + b == (a + b') + [y];
      AtAppend(a, b', key, t);
      AtSnoc(a + b', y, key, t);
      AtSnoc(b', y, key, t);
    }
  }

  lemma AtCons<T>(h: T, s: seq<T>, key: T -> int, t: int)
    ensures At([h] + s, key, t) == Tie(h, key, t) + At(s, key, t)
    ensures Above([h] + s, key, t) == (if key(h) > t then 1 else 0) + Above(s, key, t)
  {
    AtAppend([h], s, key, t);
    assert At([h], key, t) == AtPrefix([h], 0, key, t) + Tie(h, key, t);
    assert Above([h], key, t) == AbovePrefix([h], 0, key, t) + (if key(h) > t then 1 else 0);
  }

  /** The first element's tie, then the rest's. */
  lemma AtFront<T>(s: seq<T>, key: T -> int, t: int)
    requires s != []
    ensures At(s, key, t) == Tie(s[0], key, t) + At(s[1..], key, t)
    ensures Above(s, key, t) == (if key(s[0]) > t then 1 else 0) + Above(s[1..], key, t)
  {
    assert s == [s[0]] + s[1..];
    AtCons(s[0], s[1..], key, t);
  }

  /** A newest-first sequence extended at the front by an element at least as new. */
  lemma ConsNewestFirst<T>(h: T, s: seq<T>, key: T -> int)
    requires NewestFirst(s, key)
    requires forall y :: y in s ==> key(h) >= key(y)
    ensures NewestFirst([h] + s, key)
  {
    forall i, j | 0 <= i < j < |[h] + s|
      ensures key(([h] + s)[i]) >= key(([h] + s)[j])
    {
      if i > 0 {
        assert ([h] + s)[i] == s[i - 1];
      }
      assert ([h] + s)[j] == s[j - 1];
    }
  }

  /** Places `x` after every element of `r` whose key is at least `x`'s. */
  function Insert<T>(r: seq<T>, x: T, key: T -> int): (r': seq<T>)
    ensures |r'| == |r| + 1
  {
    if r == [] then [x]
    else if key(r[0]) >= key(x) then
      [r[0]] + Insert(r[1..], x, key)
    else
      [x] + r
  }

  lemma {:induction false} InsertPermutes<T>(r: seq<T>, x: T, key: T -> int)
    ensures multiset(Insert(r, x, key)) == multiset(r) + multiset{x}
  {
    if r != [] && key(r[0]) >= key(x) {
      InsertPermutes(r[1..], x, key);
      assert r == [r[0]] + r[1..];
      assert Insert(r, x, key) == [r[0]] + Insert(r[1..], x, key);
    }
  }

  lemma {:induction false} InsertNewestFirst<T>(r: seq<T>, x: T, key: T -> int)
    requires NewestFirst(r, key)
    ensures NewestFirst(Insert(r, x, key), key)
  {
    if r == [] {
      assert Insert(r, x, key) == [x];
    } else if key(r[0]) >= key(x) {
      var tail := Insert(r[1..], x, key);
      InsertNewestFirst(r[1..], x, key);
      InsertPermutes(r[1..], x, key);
      InsertBound(r, x, key, tail);
      ConsNewestFirst(r[0], tail, key);
      assert Insert(r, x, key) == [r[0]] + tail;
    } else {
      ConsNewestFirst(x, r, key);
      assert Insert(r, x, key) == [x] + r;
    }
  }

  lemma InsertBound<T>(r: seq<T>, x: T, key: T -> int, tail: seq<T>)
    requires r != [] && NewestFirst(r, key) && key(r[0]) >= key(x)
    requires multiset(tail) == multiset(r[1..]) + multiset{x}
    ensures forall y :: y in tail ==> key(r[0]) >= key(y)
  {
    forall y | y in tail
      ensures key(r[0]) >= key(y)
    {
      assert y in multiset(tail);
      if y != x {
        assert y in multiset(r[1..]);
        assert y in r[1..];
        var i :| 0 <= i < |r[1..]| && r[1..][i] == y;
        assert r[i + 1] == y;
      }
    }
  }

  /** Stable newest-first sort: insertion of each element, left to right. */
  function SortNewestFirst<T>(s: seq<T>, key: T -> int): (r: seq<T>)
    ensures NewestFirst(r, key)
    ensures |r| == |s|
  {
    if s == [] then []
    else
      assert s == s[..|s| - 1] + [s[|s| - 1]];
      var init := SortNewestFirst(s[..|s| - 1], key);
      InsertNewestFirst(init, s[|s| - 1], key);
      Insert(init, s[|s| - 1], key)
  }

  /** The sort is a permutation of its input. */
  lemma {:induction false} SortPermutes<T>(s: seq<T>, key: T -> int)
    ensures multiset(SortNewestFirst(s, key)) == multiset(s)
  {
    if s != [] {
      var init, last := s[..|s| - 1], s[|s| - 1];
      assert s == init + [last];
      SortPermutes(init, key);
      InsertPermutes(SortNewestFirst(init, key), last, key);
    }
  }

  /** The first `k` elements of `s`, or all of them when there are fewer. */
  function Take<T>(s: seq<T>, k: nat): (r: seq<T>)
    ensures |r| == if k < |s| then k else |s|
    ensures r == s[..|r|]
  {
    if k < |s| then s[..k] else s
  }

  /** JavaScript's `s.slice(0, count)`: a negative `count` counts from the end. */
  function Slice<T>(s: seq<T>, count: int): (r: seq<T>)
    ensures count >= 0 ==> r == Take(s, count)
    ensures count < 0 ==> |r| == if |s| + count < 0 then 0 else |s| + count
    ensures r == s[..|r|]
  {
    if count >= 0 then Take(s, count)
    else if |s| + count < 0 then []
    else s[..|s| + count]
  }

  function Min(a: int, b: int): int {
    if a <= b then a else b
  }

  /** `v` clamped to the range [0, n]. */
  function Clamp(v: int, n: nat): nat {
    if v < 0 then 0 else if v > n then n else v
  }

  lemma {:induction false} AtPrefixMember<T>(s: seq<T>, n: nat, key: T -> int, t: int, y: T)
    requires n <= |s| && y in AtPrefix(s, n, key, t)
    ensures y in s && key(y) == t
  {
    if y !in Tie(s[n - 1], key, t) {
      AtPrefixMember(s, n - 1, key, t, y);
    }
  }

  lemma AtMember<T>(s: seq<T>, key: T -> int, t: int, y: T)
    requires y in At(s, key, t)
    ensures y in s && key(y) == t
  {
    AtPrefixMember(s, |s|, key, t, y);
  }

  lemma {:induction false} AtPrefixNone<T>(s: seq<T>, n: nat, key: T -> int, t: int)
    requires n <= |s|
    requires forall i :: 0 <= i < n ==> key(s[i]) != t
    ensures AtPrefix(s, n, key, t) == []
  {
    if n > 0 {
      AtPrefixNone(s, n - 1, key, t);
    }
  }

  lemma AtNone<T>(s: seq<T>, key: T -> int, t: int)
    requires forall i :: 0 <= i < |s| ==> key(s[i]) != t
    ensures At(s, key, t) == []
  {
    AtPrefixNone(s, |s|, key, t);
  }

  lemma {:induction false} AbovePrefixNone<T>(s: seq<T>, n: nat, key: T -> int, t: int)
    requires n <= |s|
    requires forall i :: 0 <= i < n ==> key(s[i]) <= t
    ensures AbovePrefix(s, n, key, t) == 0
  {
    if n > 0 {
      AbovePrefixNone(s, n - 1, key, t);
    }
  }

  lemma AboveNone<T>(s: seq<T>, key: T -> int, t: int)
    requires forall i :: 0 <= i < |s| ==> key(s[i]) <= t
    ensures Above(s, key, t) == 0
  {
    AbovePrefixNone(s, |s|, key, t);
  }

  /** Inserting `x` appends it to the subsequence of its own key and leaves the others alone. */
  lemma {:induction false} InsertAt<T>(r: seq<T>, x: T, key: T -> int, t: int)
    requires NewestFirst(r, key)
    ensures At(Insert(r, x, key), key, t) == At(r, key, t) + Tie(x, key, t)
  {
    if r == [] {
      assert Insert(r, x, key) == [x] + [];
      AtCons(x, [], key, t);
    } else if key(r[0]) >= key(x) {
      InsertAt(r[1..], x, key, t);
      InsertAtBehind(r, x, key, t);
    } else {
      InsertAtFront(r, x, key, t);
    }
  }

  lemma InsertAtBehind<T>(r: seq<T>, x: T, key: T -> int, t: int)
    requires r != [] && key(r[0]) >= key(x)
    requires At(Insert(r[1..], x, key), key, t) == At(r[1..], key, t) + Tie(x, key, t)
    ensures At(Insert(r, x, key), key, t) == At(r, key, t) + Tie(x, key, t)
  {
    var tail := Insert(r[1..], x, key);
    var h0 := Tie(r[0], key, t);
    calc {
      At(Insert(r, x, key), key, t);
      { assert Insert(r, x, key) == [r[0]] + tail; }
      At([r[0]] + tail, key, t);
      { AtCons(r[0], tail, key, t); }
      h0 + At(tail, key, t);
      h0 + (At(r[1..], key, t) + Tie(x, key, t));
      (h0 + At(r[1..], key, t)) + Tie(x, key, t);
      { AtFront(r, key, t); }
      At(r, key, t) + Tie(x, key, t);
    }
  }

  lemma InsertAtFront<T>(r: seq<T>, x: T, key: T -> int, t: int)
    requires NewestFirst(r, key) && r != [] && key(r[0]) < key(x)
    ensures At(Insert(r, x, key), key, t) == At(r, key, t) + Tie(x, key, t)
  {
    if key(x) == t {
      AtNone(r, key, t);
    }
    assert Insert(r, x, key) == [x] + r;
    AtCons(x, r, key, t);
  }

  lemma {:induction false} InsertAbove<T>(r: seq<T>, x: T, key: T -> int, t: int)
    requires NewestFirst(r, key)
    ensures Above(Insert(r, x, key), key, t) == Above(r, key, t) + (if key(x) > t then 1 else 0)
  {
    if r == [] {
      assert Insert(r, x, key) == [x] + [];
      AtCons(x, [], key, t);
    } else if key(r[0]) >= key(x) {
      var tail := Insert(r[1..], x, key);
      InsertAbove(r[1..], x, key, t);
      AtCons(r[0], tail, key, t);
      AtFront(r, key, t);
    } else {
      AtCons(x, r, key, t);
    }
  }

  /** Stability: sorting keeps the relative order of elements with equal keys. */
  lemma {:induction false} SortKeepsTies<T>(s: seq<T>, key: T -> int, t: int)
    ensures At(SortNewestFirst(s, key), key, t) == At(s, key, t)
  {
    if s != [] {
      var init, last := s[..|s| - 1], s[|s| - 1];
      assert s == init + [last];
      SortKeepsTies(init, key, t);
      InsertAt(SortNewestFirst(init, key), last, key, t);
      AtSnoc(init, last, key, t);
    }
  }

  lemma {:induction false} SortKeepsAbove<T>(s: seq<T>, key: T -> int, t: int)
    ensures Above(SortNewestFirst(s, key), key, t) == Above(s, key, t)
  {
    if s != [] {
      var init, last := s[..|s| - 1], s[|s| - 1];
      assert s == init + [last];
      SortKeepsAbove(init, key, t);
      InsertAbove(SortNewestFirst(init, key), last, key, t);
      AtSnoc(init, last, key, t);
    }
  }

  /** The head of a newest-first sequence carries its largest key. */
  lemma HeadIsNewest<T>(s: seq<T>, key: T -> int, y: T)
    requires NewestFirst(s, key) && y in s
    ensures key(y) <= key(s[0])
  {
    var i :| 0 <= i < |s| && s[i] == y;
  }

  /** Two newest-first sequences with the same per-key subsequences start with the same key. */
  lemma HeadKeysAgree<T>(a: seq<T>, b: seq<T>, key: T -> int)
    requires a != [] && NewestFirst(a, key) && NewestFirst(b, key)
    requires At(a, key, key(a[0])) == At(b, key, key(a[0]))
    ensures b != [] && key(b[0]) >= key(a[0])
  {
    var ka := key(a[0]);
    AtFront(a, key, ka);
    assert At(a, key, ka) == [a[0]] + At(a[1..], key, ka);
    var y := At(b, key, ka)[0];
    AtMember(b, key, ka, y);
    HeadIsNewest(b, key, y);
  }

  /** A newest-first sequence is determined by its per-key subsequences. */
  lemma {:induction false} NewestFirstUnique<T>(a: seq<T>, b: seq<T>, key: T -> int)
    requires NewestFirst(a, key) && NewestFirst(b, key)
    requires forall t :: At(a, key, t) == At(b, key, t)
    ensures a == b
    decreases |a| + |b|
  {
    if a == [] && b == [] {
    } else if a == [] {
      HeadKeysAgree(b, a, key);
    } else {
      HeadKeysAgree(a, b, key);
      HeadKeysAgree(b, a, key);
      var k := key(a[0]);
      AtFront(a, key, k);
      AtFront(b, key, k);
      assert At(a, key, k) == [a[0]] + At(a[1..], key, k);
      assert At(b, key, k) == [b[0]] + At(b[1..], key, k);
      assert a[0] == At(a, key, k)[0] == At(b, key, k)[0] == b[0];
      forall t
        ensures At(a[1..], key, t) == At(b[1..], key, t)
      {
        var h := Tie(a[0], key, t);
        AtFront(a, key, t);
        AtFront(b, key, t);
        assert At(a, key, t) == h + At(a[1..], key, t);
        assert At(b, key, t) == h + At(b[1..], key, t);
        assert At(a[1..], key, t) == (h + At(a[1..], key, t))[|h|..];
        assert At(b[1..], key, t) == (h + At(b[1..], key, t))[|h|..];
      }
      NewestFirstUnique(a[1..], b[1..], key);
      assert a == [a[0]] + a[1..];
      assert b == [b[0]] + b[1..];
    }
  }

  /** The sort is the only newest-first arrangement that keeps ties in input
      order; `SortNewestFirst`'s own contract and `SortKeepsTies` give the converse. */
  lemma SameTiesAsSort<T>(s: seq<T>, r: seq<T>, key: T -> int)
    requires NewestFirst(r, key)
    requires forall t :: At(r, key, t) == At(s, key, t)
    ensures r == SortNewestFirst(s, key)
  {
    var sorted := SortNewestFirst(s, key);
    forall t
      ensures At(r, key, t) == At(sorted, key, t)
    {
      SortKeepsTies(s, key, t);
    }
    NewestFirstUnique(r, sorted, key);
  }

  lemma TakeNewestFirst<T>(s: seq<T>, k: nat, key: T -> int)
    requires NewestFirst(s, key)
    ensures NewestFirst(Take(s, k), key)
  {
  }

  /** Cutting a newest-first sequence anywhere: nothing behind the cut is
      newer than anything before it, and together they are the whole. */
  lemma SplitNewestFirst<T>(s: seq<T>, n: nat, key: T -> int)
    requires NewestFirst(s, key) && n <= |s|
    ensures multiset(s[..n]) + multiset(s[n..]) == multiset(s)
    ensures forall x, y :: x in s[..n] && y in s[n..] ==> key(y) <= key(x)
  {
    assert s == s[..n] + s[n..];
    forall x, y | x in s[..n] && y in s[n..]
      ensures key(y) <= key(x)
    {
      var i :| 0 <= i < n && s[..n][i] == x;
      var j :| 0 <= j < |s| - n && s[n..][j] == y;
      assert s[i] == x && s[n + j] == y;
    }
  }

  /** In a newest-first sequence, the first `k` elements keep, of each key, the
      earliest ones that fit after all the strictly newer elements. */
  lemma {:induction false} TakeAt<T>(r: seq<T>, k: nat, key: T -> int, t: int)
    requires NewestFirst(r, key)
    ensures At(Take(r, k), key, t)
         == At(r, key, t)[..Clamp(k - Above(r, key, t), |At(r, key, t)|)]
  {
    if r == [] {
    } else if k == 0 {
      assert Take(r, k) == [];
    } else if key(r[0]) < t {
      AtNone(r, key, t);
      AtNone(Take(r, k), key, t);
    } else {
      var rest := r[1..];
      TakeNewestFirst(rest, k - 1, key);
      TakeAt(rest, k - 1, key, t);
      TakeAtStep(r, k, key, t);
    }
  }

  lemma TakeCons<T>(r: seq<T>, k: nat)
    requires r != [] && k > 0
    ensures Take(r, k) == [r[0]] + Take(r[1..], k - 1)
  {
  }

  /** One step of `TakeAt`, for a head whose key is at least `t`. */
  lemma TakeAtStep<T>(r: seq<T>, k: nat, key: T -> int, t: int)
    requires NewestFirst(r, key) && r != [] && k > 0 && key(r[0]) >= t
    requires At(Take(r[1..], k - 1), key, t)
          == At(r[1..], key, t)[..Clamp(k - 1 - Above(r[1..], key, t), |At(r[1..], key, t)|)]
    ensures At(Take(r, k), key, t)
         == At(r, key, t)[..Clamp(k - Above(r, key, t), |At(r, key, t)|)]
  {
    TakeCons(r, k);
    AtCons(r[0], Take(r[1..], k - 1), key, t);
    AtFront(r, key, t);
    if key(r[0]) == t {
      TakeAtStepTie(r, k, key, t);
      assert Tie(r[0], key, t) == [r[0]];
    } else {
      assert Tie(r[0], key, t) == [];
    }
  }

  lemma TakeAtStepTie<T>(r: seq<T>, k: nat, key: T -> int, t: int)
    requires NewestFirst(r, key) && r != [] && k > 0 && key(r[0]) == t
    requires At(Take(r[1..], k - 1), key, t)
          == At(r[1..], key, t)[..Clamp(k - 1 - Above(r[1..], key, t), |At(r[1..], key, t)|)]
    ensures Above(r[1..], key, t) == 0
    ensures [r[0]] + At(Take(r[1..], k - 1), key, t)
         == ([r[0]] + At(r[1..], key, t))[..Clamp(k, |At(r[1..], key, t)| + 1)]
  {
    var rest := r[1..];
    forall i | 0 <= i < |rest|
      ensures key(rest[i]) <= t
    {
      assert rest[i] == r[i + 1];
    }
    AboveNone(rest, key, t);
    TakeAtTie(r[0], At(rest, key, t), At(Take(rest, k - 1), key, t), k);
  }

  /** Putting one more element in front of a clamped prefix. */
  lemma TakeAtTie<T>(h: T, all: seq<T>, kept: seq<T>, k: nat)
    requires k > 0 && kept == all[..Clamp(k - 1, |all|)]
    ensures [h] + kept == ([h] + all)[..Clamp(k, |all| + 1)]
  {
    var c := Clamp(k - 1, |all|);
    assert Clamp(k, |all| + 1) == c + 1;
    assert ([h] + all)[..c + 1] == [h] + all[..c];
  }

  lemma {:induction false} TakeAbove<T>(r: seq<T>, k: nat, key: T -> int, t: int)
    requires NewestFirst(r, key)
    ensures Above(Take(r, k), key, t) == Min(k, Above(r, key, t))
  {
    if r == [] {
    } else if k == 0 {
      assert Take(r, k) == [];
    } else {
      var rest := r[1..];
      assert Take(r, k) == [r[0]] + Take(rest, k - 1);
      AtCons(r[0], Take(rest, k - 1), key, t);
      AtFront(r, key, t);
      if key(r[0]) > t {
        TakeAbove(rest, k - 1, key, t);
      } else {
        AboveNone(r, key, t);
        AboveNone(Take(r, k), key, t);
      }
    }
  }

  /** `f` carries each element's key over unchanged. */
  ghost predicate KeepsKey<A(!new), B>(f: A -> B, ka: A -> int, kb: B -> int) {
    forall y :: kb(f(y)) == ka(y)
  }

  lemma MapNewestFirst<A(!new), B>(f: A -> B, s: seq<A>, ka: A -> int, kb: B -> int)
    requires KeepsKey(f, ka, kb) && NewestFirst(s, ka)
    ensures NewestFirst(MapSeq(f, s), kb)
  {
  }

  lemma {:induction false} MapInsert<A(!new), B>(f: A -> B, r: seq<A>, x: A, ka: A -> int, kb: B -> int)
    requires KeepsKey(f, ka, kb) && NewestFirst(r, ka)
    ensures NewestFirst(MapSeq(f, r), kb)
    ensures MapSeq(f, Insert(r, x, ka)) == Insert(MapSeq(f, r), f(x), kb)
  {
    MapNewestFirst(f, r, ka, kb);
    if r != [] && ka(r[0]) >= ka(x) {
      MapInsert(f, r[1..], x, ka, kb);
      assert MapSeq(f, r)[1..] == MapSeq(f, r[1..]);
      MapAppend(f, [r[0]], Insert(r[1..], x, ka));
    } else if r != [] {
      MapAppend(f, [x], r);
    }
  }

  lemma MapTake<A, B>(f: A -> B, s: seq<A>, k: nat)
    ensures MapSeq(f, Take(s, k)) == Take(MapSeq(f, s), k)
  {
  }

  /** Sorting commutes with any map that keeps keys. */
  lemma {:induction false} MapSort<A(!new), B>(f: A -> B, s: seq<A>, ka: A -> int, kb: B -> int)
    requires KeepsKey(f, ka, kb)
    ensures MapSeq(f, SortNewestFirst(s, ka)) == SortNewestFirst(MapSeq(f, s), kb)
  {
    if s != [] {
      var init, last := s[..|s| - 1], s[|s| - 1];
      MapSort(f, init, ka, kb);
      assert MapSeq(f, s)[..|s| - 1] == MapSeq(f, init);
      MapInsert(f, SortNewestFirst(init, ka), last, ka, kb);
    }
  }
}
