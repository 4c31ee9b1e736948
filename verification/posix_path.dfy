/** POSIX `path.join` and `path.normalize` as Node.js defines them: the joined
    string is cut at every `/`, the segments are resolved left to right (`""` and
    `"."` vanish, `".."` removes the segment before it), and the result is
    written back with a leading `/` for an absolute path and the trailing `/`
    kept. */
module PosixPath {
  import opened Seqs

  /** The segments of a path between separators. */
  predicate NoSlash(seg: string) {
    '/' !in seg
  }

  predicate AllNoSlash(segs: seq<string>) {
    forall i :: 0 <= i < |segs| ==> NoSlash(segs[i])
  }

  /** The segments written with `/` between them. */
  function JoinSegs(segs: seq<string>): string {
    if |segs| == 0 then ""
    else if |segs| == 1 then segs[0]
    else segs[0] + "/" + JoinSegs(segs[1..])
  }

  /** The position of the first `/`. */
  function FirstSlash(s: string): (i: nat)
    requires '/' in s
    ensures i < |s| && s[i] == '/' && NoSlash(s[..i])
  {
    if s[0] == '/' then 0
    else
      var i := FirstSlash(s[1..]);
      assert s[..i + 1] == [s[0]] + s[1..][..i];
      i + 1
  }

  /** `s.split('/')`: at least one segment, none holding a separator. */
  function Split(s: string): (r: seq<string>)
    ensures |r| >= 1 && AllNoSlash(r)
    decreases |s|
  {
    if '/' !in s then [s]
    else
      var i := FirstSlash(s);
      [s[..i]] + Split(s[i + 1..])
  }

  /** Writing the segments back gives the string that was cut. */
  lemma {:induction false} JoinSplit(s: string)
    ensures JoinSegs(Split(s)) == s
    decreases |s|
  {
    if '/' in s {
      var i := FirstSlash(s);
      JoinSplit(s[i + 1..]);
      assert s == s[..i] + "/" + s[i + 1..];
      assert ([s[..i]] + Split(s[i + 1..]))[1..] == Split(s[i + 1..]);
    }
  }

  /** Cutting the written segments gives the segments back. */
  lemma {:induction false} SplitJoin(segs: seq<string>)
    requires |segs| >= 1 && AllNoSlash(segs)
    ensures Split(JoinSegs(segs)) == segs
  {
    if |segs| > 1 {
      var rest := segs[1..];
      SplitJoin(rest);
      assert JoinSegs(segs) == segs[0] + "/" + JoinSegs(rest);
      SplitCons(segs[0], JoinSegs(rest));
      assert segs == [segs[0]] + rest;
    } else {
      assert JoinSegs(segs) == segs[0];
    }
  }

  /** The first separator of `a/b` is the one after `a` when `a` has none. */
  lemma FirstSlashAfter(a: string, b: string)
    requires NoSlash(a)
    ensures '/' in a + "/" + b && FirstSlash(a + "/" + b) == |a|
  {
    var s := a + "/" + b;
    assert s[|a|] == '/';
    var i := FirstSlash(s);
    if i < |a| {
      assert false;
    }
    if i > |a| {
      assert false;
    }
  }

  /** Cutting `a/b` where `a` has no separator gives `a`, then the cuts of `b`. */
  lemma SplitCons(a: string, b: string)
    requires NoSlash(a)
    ensures Split(a + "/" + b) == [a] + Split(b)
  {
    var s := a + "/" + b;
    FirstSlashAfter(a, b);
    assert s[..|a|] == a;
    assert s[|a| + 1..] == b;
  }

  /** Joining two non-empty lists puts one separator between them. */
  lemma {:induction false} JoinAppend(a: seq<string>, b: seq<string>)
    requires |a| >= 1 && |b| >= 1
    ensures JoinSegs(a + b) == JoinSegs(a) + "/" + JoinSegs(b)
  {
    if |a| == 1 {
      assert (a + b)[1..] == b;
    } else {
      assert (a + b)[1..] == a[1..] + b;
      JoinAppend(a[1..], b);
    }
  }

  /** Cutting `a/b` cuts `a` and `b` separately. */
  lemma SplitAppend(a: string, b: string)
    ensures Split(a + "/" + b) == Split(a) + Split(b)
  {
    JoinSplit(a);
    JoinSplit(b);
    JoinAppend(Split(a), Split(b));
    SplitJoin(Split(a) + Split(b));
  }

  /** `s.startsWith(p)`. */
  predicate StartsWith(s: string, p: string) {
    |p| <= |s| && s[..|p|] == p
  }

  /** A segment that names a directory entry. */
  predicate Named(seg: string) {
    seg != "" && seg != "." && seg != ".." && NoSlash(seg)
  }

  /** A segment of a written path: not empty and without separator. */
  predicate Proper(seg: string) {
    seg != "" && NoSlash(seg)
  }

  predicate AllProper(segs: seq<string>) {
    forall i :: 0 <= i < |segs| ==> Proper(segs[i])
  }

  /** Prefix facts about a head segment followed by the rest of a path, where the
      rest is empty or starts at a separator. */
  lemma HeadPrefix(y: string, rest: string, x: string, u: string)
    requires NoSlash(y) && Proper(x) && (rest == "" || rest[0] == '/') && (u == "" || u == "/")
    ensures StartsWith(y + rest, x + u) <==>
      if u == "" then StartsWith(y, x) else y == x && rest != ""
  {
    var s := y + rest;
    assert |s| > |y| ==> s[|y|] == '/';
    assert forall k :: 0 <= k < |x| ==> x[k] != '/';
    assert forall k :: 0 <= k < |y| ==> s[k] == y[k] != '/';
    if u == "" {
      assert StartsWith(s, x) ==> forall k :: 0 <= k < |x| ==> s[k] == x[k];
      if StartsWith(y, x) {
        assert s[..|x|] == y[..|x|];
      }
    } else {
      assert StartsWith(s, x + u) ==> forall k :: 0 <= k <= |x| ==> s[k] == (x + u)[k];
      if StartsWith(s, x + u) {
        assert s[|x|] == '/';
        assert |y| == |x|;
        assert y == s[..|x|];
      }
      if y == x && rest != "" {
        assert s[..|x| + 1] == x + "/";
      }
    }
  }

  /** A separator-ended head prefix passes to the rest of the path. */
  lemma HeadPrefixStep(y: string, rest: string, x: string, w: string)
    requires NoSlash(y) && Proper(x) && (rest == "" || rest[0] == '/')
    ensures StartsWith(y + rest, x + "/" + w) <==> y == x && StartsWith(rest, "/" + w)
  {
    var s := y + rest;
    if StartsWith(s, x + "/" + w) {
      assert StartsWith(s, x + "/") by {
        assert (x + "/" + w)[..|x| + 1] == x + "/";
      }
      HeadPrefix(y, rest, x, "/");
      assert s[|x|..][..1 + |w|] == "/" + w;
    }
    if y == x && StartsWith(rest, "/" + w) {
      assert s[..|x| + 1 + |w|] == x + rest[..1 + |w|];
    }
  }

  /** The segments agree up to the last of `xs`, and the last one is a prefix
      (`u` empty) or the same segment with more to follow (`u` a separator). */
  predicate SegsPrefix(xs: seq<string>, ys: seq<string>, t: string, u: string)
    requires |xs| >= 1
  {
    |ys| >= |xs| && ys[..|xs| - 1] == xs[..|xs| - 1]
    && if u == "" then StartsWith(ys[|xs| - 1], xs[|xs| - 1])
       else ys[|xs| - 1] == xs[|xs| - 1] && (|ys| > |xs| || t == "/")
  }

  lemma SegsPrefixCons(xs: seq<string>, ys: seq<string>, t: string, u: string)
    requires |xs| >= 2 && |ys| >= 2
    ensures SegsPrefix(xs, ys, t, u) <==> ys[0] == xs[0] && SegsPrefix(xs[1..], ys[1..], t, u)
  {
    SegsCons(xs, |xs| - 1);
    if |ys| >= |xs| {
      SegsCons(ys, |xs| - 1);
    }
  }

  /** A written path followed by `t` starts with the written path `x` followed by
      `u` exactly when the segments agree up to the last of `x`, and the last one
      is a prefix (`u` empty) or the same segment with more to follow (`u` a separator). */
  lemma {:induction false} PrefixSegs(xs: seq<string>, ys: seq<string>, t: string, u: string)
    requires |xs| >= 1 && AllProper(xs) && AllProper(ys)
    requires (t == "" || t == "/") && (u == "" || u == "/")
    ensures StartsWith(JoinSegs(ys) + t, JoinSegs(xs) + u) <==> SegsPrefix(xs, ys, t, u)
    decreases |xs|, 1
  {
    if |ys| == 0 {
      PrefixOfNothing(xs, t, u);
    } else if |xs| == 1 {
      var rest := if |ys| > 1 then "/" + JoinSegs(ys[1..]) + t else t;
      assert JoinSegs(ys) + t == ys[0] + rest;
      HeadPrefix(ys[0], rest, xs[0], u);
    } else {
      PrefixSegs'(xs, ys, t, u);
    }
  }

  /** Neither the empty path nor a bare separator starts with a written path. */
  lemma PrefixOfNothing(xs: seq<string>, t: string, u: string)
    requires |xs| >= 1 && AllProper(xs) && (t == "" || t == "/")
    ensures !StartsWith(JoinSegs([]) + t, JoinSegs(xs) + u)
  {
    JoinHead(xs);
    assert (JoinSegs(xs) + u)[0] == xs[0][0];
  }

  /** The inductive step of `PrefixSegs`: both paths lose their first segment. */
  lemma {:induction false} PrefixSegs'(xs: seq<string>, ys: seq<string>, t: string, u: string)
    requires |xs| >= 2 && |ys| >= 1 && AllProper(xs) && AllProper(ys)
    requires (t == "" || t == "/") && (u == "" || u == "/")
    ensures StartsWith(JoinSegs(ys) + t, JoinSegs(xs) + u) <==> SegsPrefix(xs, ys, t, u)
    decreases |xs|, 0
  {
    var rest := if |ys| > 1 then "/" + JoinSegs(ys[1..]) + t else t;
    assert JoinSegs(ys) + t == ys[0] + rest;
    var w := JoinSegs(xs[1..]) + u;
    assert JoinSegs(xs) + u == xs[0] + "/" + w;
    HeadPrefixStep(ys[0], rest, xs[0], w);
    if |ys| > 1 {
      PrefixSegs(xs[1..], ys[1..], t, u);
      assert rest == "/" + (JoinSegs(ys[1..]) + t);
      SlashPrefix(JoinSegs(ys[1..]) + t, w);
      SegsPrefixCons(xs, ys, t, u);
    } else {
      JoinHead(xs[1..]);
    }
  }

  lemma SegsCons(s: seq<string>, n: nat)
    requires 1 <= n <= |s|
    ensures s[..n] == [s[0]] + s[1..][..n - 1]
  {
  }

  lemma SlashPrefix(a: string, w: string)
    ensures StartsWith("/" + a, "/" + w) <==> StartsWith(a, w)
  {
    if StartsWith("/" + a, "/" + w) {
      assert a[..|w|] == ("/" + a)[1..|w| + 1];
    }
  }

  /** A written path begins with its first segment. */
  lemma JoinHead(xs: seq<string>)
    requires |xs| >= 1 && Proper(xs[0])
    ensures |JoinSegs(xs)| >= |xs[0]| && JoinSegs(xs)[..|xs[0]|] == xs[0]
  {
  }

  const UP: string := ".."

  /** One segment of `normalizeString`: `""` and `"."` vanish; `".."` removes the
      segment before it unless that is itself `".."`, and otherwise stays only in
      a relative path (`above`). */
  function Step(acc: seq<string>, seg: string, above: bool): seq<string> {
    if seg == "" || seg == "." then acc
    else if seg == UP then
      if |acc| > 0 && acc[|acc| - 1] != UP then acc[..|acc| - 1]
      else if above then acc + [UP]
      else acc
    else acc + [seg]
  }

  /** The segments resolved left to right onto `acc`. */
  function Resolve(acc: seq<string>, segs: seq<string>, above: bool): seq<string>
    decreases |segs|
  {
    if |segs| == 0 then acc else Resolve(Step(acc, segs[0], above), segs[1..], above)
  }

  /** A resolved segment list: named segments after a run of `".."`, which only a
      relative path (`above`) may have. */
  predicate Canonical(segs: seq<string>, above: bool) {
    (forall i :: 0 <= i < |segs| ==> segs[i] == UP || Named(segs[i]))
    && (forall i, j :: 0 <= i < j < |segs| && segs[j] == UP ==> segs[i] == UP)
    && (!above ==> forall i :: 0 <= i < |segs| ==> segs[i] != UP)
  }

  lemma CanonicalProper(segs: seq<string>, above: bool)
    requires Canonical(segs, above)
    ensures AllProper(segs)
  {
  }

  lemma StepCanonical(acc: seq<string>, seg: string, above: bool)
    requires Canonical(acc, above) && NoSlash(seg)
    ensures Canonical(Step(acc, seg, above), above)
  {
    var r := Step(acc, seg, above);
    if seg == UP && !(|acc| > 0 && acc[|acc| - 1] != UP) && above {
      forall i, j | 0 <= i < j < |r| && r[j] == UP
        ensures r[i] == UP
      {
        if j == |acc| && |acc| > 0 {
          assert acc[|acc| - 1] == UP;
        }
      }
    }
  }

  /** Resolution produces a resolved list. */
  lemma {:induction false} ResolveCanonical(acc: seq<string>, segs: seq<string>, above: bool)
    requires Canonical(acc, above) && AllNoSlash(segs)
    ensures Canonical(Resolve(acc, segs, above), above)
    decreases |segs|
  {
    if |segs| > 0 {
      StepCanonical(acc, segs[0], above);
      ResolveCanonical(Step(acc, segs[0], above), segs[1..], above);
    }
  }

  /** Resolving a concatenation resolves one part after the other. */
  lemma {:induction false} ResolveAppend(acc: seq<string>, a: seq<string>, b: seq<string>, above: bool)
    ensures Resolve(acc, a + b, above) == Resolve(Resolve(acc, a, above), b, above)
    decreases |a|
  {
    if |a| > 0 {
      assert (a + b)[0] == a[0];
      assert (a + b)[1..] == a[1..] + b;
      ResolveAppend(Step(acc, a[0], above), a[1..], b, above);
    } else {
      assert a + b == b;
    }
  }

  /** Resolving what is already resolved changes nothing. */
  lemma {:induction false} ResolveCanonicalId(acc: seq<string>, segs: seq<string>, above: bool)
    requires Canonical(acc + segs, above)
    ensures Resolve(acc, segs, above) == acc + segs
    decreases |segs|
  {
    if |segs| > 0 {
      var x := acc + segs;
      assert x[|acc|] == segs[0];
      if segs[0] == UP && |acc| > 0 {
        assert x[|acc| - 1] == acc[|acc| - 1];
      }
      assert Step(acc, segs[0], above) == acc + [segs[0]];
      assert acc + [segs[0]] + segs[1..] == x;
      ResolveCanonicalId(acc + [segs[0]], segs[1..], above);
    } else {
      assert acc + segs == acc;
    }
  }

  /** How `normalize` writes a resolved path: a leading `/` when absolute, the
      trailing `/` kept, and `/`, `./` or `.` for an empty list. */
  function Render(abs: bool, segs: seq<string>, trail: bool): string {
    if |segs| == 0 then (if abs then "/" else if trail then "./" else ".")
    else (if abs then "/" else "") + JoinSegs(segs) + (if trail then "/" else "")
  }

  /** `path.normalize(p)`. */
  function Normalize(p: string): string {
    if p == "" then "."
    else
      var abs := p[0] == '/';
      Render(abs, Resolve([], Split(p), !abs), p[|p| - 1] == '/')
  }

  /** `path.join(...args)`: the non-empty arguments with `/` between them, normalised. */
  function PathJoin(args: seq<string>): string {
    var parts := FilterSeq((a: string) => a != "", args);
    if |parts| == 0 then "." else Normalize(JoinSegs(parts))
  }

  /** A written path ends with its last segment. */
  lemma {:induction false} JoinLast(xs: seq<string>)
    requires |xs| >= 1
    ensures |JoinSegs(xs)| >= |xs[|xs| - 1]|
    ensures JoinSegs(xs)[|JoinSegs(xs)| - |xs[|xs| - 1]|..] == xs[|xs| - 1]
  {
    if |xs| > 1 {
      JoinLast(xs[1..]);
      assert JoinSegs(xs) == xs[0] + "/" + JoinSegs(xs[1..]);
    }
  }

  /** The separator-free marks of a non-empty rendered path: it starts with `/`
      exactly when absolute, ends with `/` exactly when the trailing separator was
      kept, and cuts into its segments between those marks. */
  lemma RenderSplit(abs: bool, segs: seq<string>, trail: bool)
    requires |segs| >= 1 && AllProper(segs)
    ensures var q := Render(abs, segs, trail);
      q != "" && (q[0] == '/' <==> abs) && (q[|q| - 1] == '/' <==> trail)
      && Split(q) == (if abs then [""] else []) + segs + (if trail then [""] else [])
  {
    var all := (if abs then [""] else []) + segs + (if trail then [""] else []);
    RenderMarks(abs, segs, trail);
    RenderIsJoin(abs, segs, trail);
    assert AllNoSlash(all);
    SplitJoin(all);
  }

  /** A rendered non-empty list starts with `/` exactly when absolute and ends with
      `/` exactly when the trailing separator is kept. */
  lemma RenderMarks(abs: bool, segs: seq<string>, trail: bool)
    requires |segs| >= 1 && AllProper(segs)
    ensures var q := Render(abs, segs, trail);
      q != "" && (q[0] == '/' <==> abs) && (q[|q| - 1] == '/' <==> trail)
  {
    var j := JoinSegs(segs);
    JoinEnds(segs);
    var lead := if abs then "/" else "";
    var tail := if trail then "/" else "";
    var q := lead + j + tail;
    assert Render(abs, segs, trail) == q;
    assert q[0] == (if abs then '/' else j[0]);
    assert q[|q| - 1] == (if trail then '/' else j[|j| - 1]);
  }

  /** A non-empty join of proper segments neither starts nor ends with `/`. */
  lemma JoinEnds(segs: seq<string>)
    requires |segs| >= 1 && AllProper(segs)
    ensures var j := JoinSegs(segs); j != "" && j[0] != '/' && j[|j| - 1] != '/'
  {
    var j := JoinSegs(segs);
    JoinHead(segs);
    JoinLast(segs);
    var last := segs[|segs| - 1];
    assert j[0] == segs[0][0];
    assert j[|j| - 1] == last[|last| - 1];
  }

  /** Rendering a non-empty list joins it with an empty segment in front when
      absolute and one behind when the trailing separator is kept. */
  lemma RenderIsJoin(abs: bool, segs: seq<string>, trail: bool)
    requires |segs| >= 1
    ensures Render(abs, segs, trail) == JoinSegs((if abs then [""] else []) + segs + (if trail then [""] else []))
  {
    var j := JoinSegs(segs);
    var pre: seq<string> := if abs then [""] else [];
    var lead := if abs then "/" else "";
    var tail := if trail then "/" else "";
    assert Render(abs, segs, trail) == lead + j + tail;
    if abs {
      JoinFront(segs);
    } else {
      assert pre + segs == segs;
      assert lead + j == j;
    }
    assert JoinSegs(pre + segs) == lead + j;
    if trail {
      JoinBack(pre + segs);
    } else {
      assert pre + segs + [] == pre + segs;
      assert lead + j + tail == lead + j;
    }
  }

  /** An empty segment in front joins as a leading `/`. */
  lemma JoinFront(segs: seq<string>)
    requires |segs| >= 1
    ensures JoinSegs([""] + segs) == "/" + JoinSegs(segs)
  {
    var xs := [""] + segs;
    assert xs[0] == "" && xs[1..] == segs;
    assert "" + "/" + JoinSegs(segs) == "/" + JoinSegs(segs);
  }

  /** An empty segment behind joins as a trailing `/`. */
  lemma JoinBack(xs: seq<string>)
    requires |xs| >= 1
    ensures JoinSegs(xs + [""]) == JoinSegs(xs) + "/"
  {
    JoinAppend(xs, [""]);
    assert JoinSegs([""]) == "";
    assert JoinSegs(xs) + "/" + "" == JoinSegs(xs) + "/";
  }

  /** Normalisation is idempotent: a normalised path is its own normal form. */
  lemma NormalizeIdempotent(p: string)
    ensures Normalize(Normalize(p)) == Normalize(p)
  {
    if p != "" {
      var abs := p[0] == '/';
      var segs := Resolve([], Split(p), !abs);
      ResolveCanonical([], Split(p), !abs);
      if |segs| == 0 {
        NormalizeDots();
      } else {
        NormalizeRendered(abs, segs, p[|p| - 1] == '/');
      }
    } else {
      NormalizeDots();
    }
  }

  /** A non-empty resolved list, written out, normalises to itself. */
  lemma NormalizeRendered(abs: bool, segs: seq<string>, trail: bool)
    requires |segs| >= 1 && Canonical(segs, !abs)
    ensures Normalize(Render(abs, segs, trail)) == Render(abs, segs, trail)
  {
    var q := Render(abs, segs, trail);
    CanonicalProper(segs, !abs);
    RenderSplit(abs, segs, trail);
    RenderedResolves(abs, segs, trail);
    assert q != "" && (q[0] == '/') == abs && (q[|q| - 1] == '/') == trail;
    assert Resolve([], Split(q), !abs) == segs;
  }

  /** Resolving the cut of a rendered resolved list gives the list back. */
  lemma RenderedResolves(abs: bool, segs: seq<string>, trail: bool)
    requires Canonical(segs, !abs)
    ensures Resolve([], (if abs then [""] else []) + segs + (if trail then [""] else []), !abs) == segs
  {
    var pre: seq<string> := if abs then [""] else [];
    var post: seq<string> := if trail then [""] else [];
    ResolveAppend([], pre + segs, post, !abs);
    ResolveAppend([], pre, segs, !abs);
    assert Resolve([], pre, !abs) == [];
    assert [] + segs == segs;
    ResolveCanonicalId([], segs, !abs);
    assert Resolve(segs, post, !abs) == segs;
  }

  /** The three renderings of an empty list normalise to themselves. */
  lemma NormalizeDots()
    ensures Normalize("/") == "/" && Normalize("./") == "./" && Normalize(".") == "."
  {
    SplitCons("", "");
    assert "" + "/" + "" == "/";
    SplitCons(".", "");
    assert "." + "/" + "" == "./";
    assert Split(".") == ["."];
  }
}
