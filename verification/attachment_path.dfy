/** Where an attachment is read from: the attachments directory under the storage
    path, the requested relative path joined to it, and the guard that keeps the
    joined path inside the directory. Paths are compared through their resolved
    segment lists (`PosixPath`). */
module AttachmentPath {
  import opened Wrappers
  import opened Items
  import opened Seqs
  import opened PosixPath

  const BASE_NAME: string := "attachments.noindex"

  /** The constructor: `path.join(STORAGE_PATH, 'attachments.noindex')`, refusing an
      unset or empty storage path. */
  function AttachmentsPath(storage: Option<string>): (r: Result<string, Thrown>)
    ensures r.Failure? <==> !Truthy(storage)
  {
    if !Truthy(storage) then Failure(Thrown("STORAGE_PATH environment variable not set"))
    else Success(PathJoin([storage.value, BASE_NAME]))
  }

  /** `path.join(attachmentsPath, filePath)`. */
  function FullPath(base: string, filePath: string): string {
    PathJoin([base, filePath])
  }

  /** The guard as written: `fullPath.startsWith(attachmentsPath)`. */
  predicate GuardAsWritten(full: string, base: string) {
    StartsWith(full, base)
  }

  /** The guard as intended: the joined path is the directory itself or lies below it. */
  predicate Inside(full: string, base: string) {
    full == base || StartsWith(full, base + "/")
  }

  /** The resolved segments of the attachments directory. */
  function BaseSegs(storage: string): seq<string>
    requires storage != ""
  {
    Resolve([], Split(storage), storage[0] != '/') + [BASE_NAME]
  }

  /** The resolved segments of a requested path, resolved on top of the directory's. */
  function FullSegs(storage: string, filePath: string): seq<string>
    requires storage != ""
  {
    Resolve(BaseSegs(storage), Split(filePath), storage[0] != '/')
  }

  /** `filePath` ends in a separator, which the join keeps. */
  predicate Trailing(filePath: string) {
    filePath != "" && filePath[|filePath| - 1] == '/'
  }

  /** The last directory segment is replaced by a longer name that begins with it:
      a sibling such as `attachments.noindex-old`. */
  predicate Sibling(b: seq<string>, f: seq<string>)
    requires |b| >= 1
  {
    |f| >= |b| && f[..|b| - 1] == b[..|b| - 1]
    && f[|b| - 1] != b[|b| - 1] && StartsWith(f[|b| - 1], b[|b| - 1])
  }

  lemma FilterTwo(a: string, b: string)
    requires a != "" && b != ""
    ensures FilterSeq((x: string) => x != "", [a, b]) == [a, b]
  {
    assert [a, b][1..] == [b];
    assert [b][1..] == [];
  }

  lemma FilterOne(a: string)
    requires a != ""
    ensures FilterSeq((x: string) => x != "", [a, ""]) == [a]
  {
    assert [a, ""][1..] == [""];
    assert [""][1..] == [];
  }

  /** The attachments directory is written as its resolved segments, which end in
      the directory name. */
  lemma BaseShape(storage: string)
    requires storage != ""
    ensures var b := BaseSegs(storage);
      |b| >= 1 && b[|b| - 1] == BASE_NAME && Canonical(b, storage[0] != '/')
      && AttachmentsPath(Some(storage)) == Success(Render(storage[0] == '/', b, false))
  {
    assert Named(BASE_NAME);
    JoinNamed(storage, BASE_NAME);
  }

  /** A path joined with one named segment is the path's resolved segments and then
      that segment. */
  lemma JoinNamed(storage: string, name: string)
    requires storage != "" && Named(name)
    ensures var abs := storage[0] == '/';
      var b := Resolve([], Split(storage), !abs) + [name];
      Canonical(b, !abs) && PathJoin([storage, name]) == Render(abs, b, false)
  {
    var abs := storage[0] == '/';
    var r := Resolve([], Split(storage), !abs);
    FilterTwo(storage, name);
    assert JoinSegs([storage, name]) == storage + "/" + name;
    ResolveCanonical([], Split(storage), !abs);
    StepCanonical(r, name, !abs);
    NormalizeNamed(storage, name);
  }

  lemma NormalizeNamed(storage: string, name: string)
    requires storage != "" && Named(name)
    ensures var abs := storage[0] == '/';
      Normalize(storage + "/" + name) == Render(abs, Resolve([], Split(storage), !abs) + [name], false)
  {
    var abs := storage[0] == '/';
    var p := storage + "/" + name;
    SplitNamed(storage, name);
    Ends(storage, name);
    var r := Resolve([], Split(storage), !abs);
    assert Resolve([], Split(p), !abs) == r + [name];
  }

  lemma SplitNamed(storage: string, name: string)
    requires Named(name)
    ensures Resolve([], Split(storage + "/" + name), storage == "" || storage[0] != '/')
      == Resolve([], Split(storage), storage == "" || storage[0] != '/') + [name]
  {
    var above := storage == "" || storage[0] != '/';
    SplitAppend(storage, name);
    assert Split(name) == [name];
    ResolveAppend([], Split(storage), [name], above);
  }

  /** The first and last characters of `a/b`. */
  lemma Ends(a: string, b: string)
    requires a != "" && b != ""
    ensures var p := a + "/" + b;
      p != "" && p[0] == a[0] && p[|p| - 1] == b[|b| - 1]
  {
  }

  /** The joined path is written as the requested path's segments resolved on top
      of the directory's, with its trailing separator kept. */
  lemma FullShape(storage: string, filePath: string)
    requires storage != ""
    ensures var abs := storage[0] == '/';
      var f := FullSegs(storage, filePath);
      Canonical(f, !abs)
      && FullPath(AttachmentsPath(Some(storage)).value, filePath) == Render(abs, f, Trailing(filePath))
  {
    var abs := storage[0] == '/';
    var b := BaseSegs(storage);
    BaseShape(storage);
    ResolveCanonical(b, Split(filePath), !abs);
    if filePath == "" {
      JoinNothing(abs, b);
    } else {
      JoinRelative(abs, b, filePath);
    }
  }

  /** Joining the empty path leaves a written resolved path as it is. */
  lemma JoinNothing(abs: bool, b: seq<string>)
    requires |b| >= 1 && Canonical(b, !abs)
    ensures PathJoin([Render(abs, b, false), ""]) == Render(abs, Resolve(b, Split(""), !abs), false)
  {
    var base := Render(abs, b, false);
    CanonicalProper(b, !abs);
    RenderSplit(abs, b, false);
    FilterOne(base);
    NormalizeRendered(abs, b, false);
    assert Split("") == [""];
    assert Resolve(b, [""], !abs) == b;
  }

  /** Joining a non-empty path to a written resolved path resolves it on top. */
  lemma JoinRelative(abs: bool, b: seq<string>, filePath: string)
    requires |b| >= 1 && Canonical(b, !abs) && filePath != ""
    ensures PathJoin([Render(abs, b, false), filePath]) == Render(abs, Resolve(b, Split(filePath), !abs), Trailing(filePath))
  {
    var base := Render(abs, b, false);
    RenderStart(abs, b);
    FilterTwo(base, filePath);
    var p := base + "/" + filePath;
    assert JoinSegs([base, filePath]) == p;
    Ends(base, filePath);
    ResolveJoined(abs, b, filePath);
    assert Normalize(p) == Render(abs, Resolve([], Split(p), !abs), Trailing(filePath));
  }

  lemma RenderStart(abs: bool, b: seq<string>)
    requires |b| >= 1 && Canonical(b, !abs)
    ensures Render(abs, b, false) != "" && (Render(abs, b, false)[0] == '/' <==> abs)
  {
    CanonicalProper(b, !abs);
    RenderSplit(abs, b, false);
  }

  lemma ResolveJoined(abs: bool, b: seq<string>, filePath: string)
    requires |b| >= 1 && Canonical(b, !abs)
    ensures Resolve([], Split(Render(abs, b, false) + "/" + filePath), !abs) == Resolve(b, Split(filePath), !abs)
  {
    var base := Render(abs, b, false);
    CanonicalProper(b, !abs);
    RenderSplit(abs, b, false);
    SplitAppend(base, filePath);
    var pre: seq<string> := if abs then [""] else [];
    assert Split(base) == pre + b + [];
    RenderedResolves(abs, b, false);
    ResolveAppend([], pre + b + [], Split(filePath), !abs);
  }

  /** Both guards, on written paths, in terms of the segment lists. */
  lemma GuardsOnSegments(abs: bool, b: seq<string>, f: seq<string>, trail: bool)
    requires |b| >= 1 && |b[|b| - 1]| >= 3 && Canonical(b, !abs) && Canonical(f, !abs)
    ensures var full := Render(abs, f, trail);
      var base := Render(abs, b, false);
      (GuardAsWritten(full, base) <==> SegsPrefix(b, f, if trail then "/" else "", ""))
      && (Inside(full, base) <==> |f| >= |b| && f[..|b|] == b)
  {
    CanonicalProper(b, !abs);
    CanonicalProper(f, !abs);
    if |f| == 0 {
      EmptyOutside(abs, b, trail);
    } else {
      WrittenOnSegments(abs, b, f, trail);
      InsideOnSegments(abs, b, f, trail);
    }
  }

  /** The directory, at least three characters long, is not a prefix of `/`, `./` or `.`. */
  lemma EmptyOutside(abs: bool, b: seq<string>, trail: bool)
    requires |b| >= 1 && |b[|b| - 1]| >= 3
    ensures |Render(abs, b, false)| >= 3 && |Render(abs, [], trail)| <= 2
  {
    JoinLast(b);
  }

  lemma WrittenOnSegments(abs: bool, b: seq<string>, f: seq<string>, trail: bool)
    requires |b| >= 1 && |f| >= 1 && AllProper(b) && AllProper(f)
    ensures GuardAsWritten(Render(abs, f, trail), Render(abs, b, false))
      <==> SegsPrefix(b, f, if trail then "/" else "", "")
  {
    RenderTail(abs, b, f, trail, "");
    assert Render(abs, b, false) + "" == Render(abs, b, false);
    assert JoinSegs(b) + "" == JoinSegs(b);
    PrefixSegs(b, f, if trail then "/" else "", "");
  }

  lemma InsideOnSegments(abs: bool, b: seq<string>, f: seq<string>, trail: bool)
    requires |b| >= 1 && |f| >= 1 && AllProper(b) && AllProper(f)
    ensures Inside(Render(abs, f, trail), Render(abs, b, false)) <==> |f| >= |b| && f[..|b|] == b
  {
    var t := if trail then "/" else "";
    RenderTail(abs, b, f, trail, "/");
    PrefixSegs(b, f, t, "/");
    SameRender(abs, b, f, trail);
    BelowOnSegments(b, f, t);
  }

  /** Either the same segments without a trailing separator, or the directory's
      segments followed by more: together, the segments begin with the directory's. */
  lemma BelowOnSegments(b: seq<string>, f: seq<string>, t: string)
    requires |b| >= 1 && (t == "" || t == "/")
    ensures (f == b && t == "") || SegsPrefix(b, f, t, "/") <==> |f| >= |b| && f[..|b|] == b
  {
    if |f| >= |b| {
      assert f[..|b|] == f[..|b| - 1] + [f[|b| - 1]];
      assert b == b[..|b| - 1] + [b[|b| - 1]];
      if |f| == |b| {
        assert f[..|b|] == f;
      }
    }
  }

  /** The shared leading separator of two absolute paths does not affect prefixes. */
  lemma RenderTail(abs: bool, b: seq<string>, f: seq<string>, trail: bool, u: string)
    requires |b| >= 1 && |f| >= 1
    ensures var t := if trail then "/" else "";
      StartsWith(Render(abs, f, trail), Render(abs, b, false) + u) == StartsWith(JoinSegs(f) + t, JoinSegs(b) + u)
  {
    var lead := if abs then "/" else "";
    var x := JoinSegs(f) + (if trail then "/" else "");
    var y := JoinSegs(b) + u;
    assert Render(abs, f, trail) == lead + x;
    assert Render(abs, b, false) + u == lead + y;
    LeadPrefix(lead, x, y);
  }

  lemma LeadPrefix(lead: string, x: string, y: string)
    ensures StartsWith(lead + x, lead + y) == StartsWith(x, y)
  {
    if StartsWith(lead + x, lead + y) {
      assert x[..|y|] == (lead + x)[|lead|..|lead| + |y|];
    }
    if StartsWith(x, y) {
      assert (lead + x)[..|lead + y|] == lead + x[..|y|];
    }
  }

  /** The joined path equals the directory exactly when it has the directory's
      segments and no trailing separator. */
  lemma SameRender(abs: bool, b: seq<string>, f: seq<string>, trail: bool)
    requires |b| >= 1 && |f| >= 1 && AllProper(b) && AllProper(f)
    ensures Render(abs, f, trail) == Render(abs, b, false) <==> f == b && !trail
  {
    if Render(abs, f, trail) == Render(abs, b, false) {
      RenderEnd(abs, b, false);
      RenderEnd(abs, f, trail);
      var lead := if abs then "/" else "";
      assert Render(abs, f, false) == lead + JoinSegs(f);
      assert Render(abs, b, false) == lead + JoinSegs(b);
      assert JoinSegs(f) == (lead + JoinSegs(f))[|lead|..];
      assert JoinSegs(b) == (lead + JoinSegs(b))[|lead|..];
      SplitJoin(f);
      SplitJoin(b);
    }
  }

  lemma RenderEnd(abs: bool, segs: seq<string>, trail: bool)
    requires |segs| >= 1 && AllProper(segs)
    ensures var q := Render(abs, segs, trail); q != "" && (q[|q| - 1] == '/' <==> trail)
  {
    RenderSplit(abs, segs, trail);
  }

  /** The last segment starts with the directory name exactly when it is the
      directory name or a sibling's. */
  lemma WrittenGuardSegments(b: seq<string>, f: seq<string>, t: string)
    requires |b| >= 1
    ensures SegsPrefix(b, f, t, "") <==> (|f| >= |b| && f[..|b|] == b) || Sibling(b, f)
  {
    if |f| >= |b| {
      assert f[..|b|] == f[..|b| - 1] + [f[|b| - 1]];
      assert b == b[..|b| - 1] + [b[|b| - 1]];
      if f[|b| - 1] == b[|b| - 1] {
        assert f[|b| - 1][..|b[|b| - 1]|] == b[|b| - 1];
      }
    }
  }

  /** The intended guard admits exactly the requests whose resolved path starts
      with the directory's segments: the directory and what lies below it. */
  lemma InsideMeansBelowBase(storage: string, filePath: string)
    requires storage != ""
    ensures var base := AttachmentsPath(Some(storage)).value;
      var b := BaseSegs(storage);
      var f := FullSegs(storage, filePath);
      Inside(FullPath(base, filePath), base) <==> |f| >= |b| && f[..|b|] == b
  {
    BaseShape(storage);
    FullShape(storage, filePath);
    GuardsOnSegments(storage[0] == '/', BaseSegs(storage), FullSegs(storage, filePath), Trailing(filePath));
  }

  /** The guard as written admits what the intended guard admits, and also every
      path into a sibling whose name begins with the directory's name. */
  lemma WrittenGuardAdmitsSiblings(storage: string, filePath: string)
    requires storage != ""
    ensures var base := AttachmentsPath(Some(storage)).value;
      var full := FullPath(base, filePath);
      GuardAsWritten(full, base) <==> Inside(full, base) || Sibling(BaseSegs(storage), FullSegs(storage, filePath))
  {
    var b := BaseSegs(storage);
    var f := FullSegs(storage, filePath);
    BaseShape(storage);
    FullShape(storage, filePath);
    GuardsOnSegments(storage[0] == '/', b, f, Trailing(filePath));
    WrittenGuardSegments(b, f, if Trailing(filePath) then "/" else "");
  }

  /** Resolving segments without `".."` only appends to what is already there. */
  lemma {:induction false} ResolveWithoutUp(acc: seq<string>, segs: seq<string>, above: bool)
    requires forall i :: 0 <= i < |segs| ==> segs[i] != UP
    ensures |Resolve(acc, segs, above)| >= |acc| && Resolve(acc, segs, above)[..|acc|] == acc
    decreases |segs|
  {
    if |segs| > 0 {
      var next := Step(acc, segs[0], above);
      assert |next| >= |acc| && next[..|acc|] == acc;
      ResolveWithoutUp(next, segs[1..], above);
      var r := Resolve(next, segs[1..], above);
      assert r[..|acc|] == r[..|next|][..|acc|];
    }
  }

  /** A requested path without a `".."` segment always passes the intended guard. */
  lemma PlainPathsAreInside(storage: string, filePath: string)
    requires storage != ""
    requires forall i :: 0 <= i < |Split(filePath)| ==> Split(filePath)[i] != UP
    ensures var base := AttachmentsPath(Some(storage)).value;
      Inside(FullPath(base, filePath), base)
  {
    ResolveWithoutUp(BaseSegs(storage), Split(filePath), storage[0] != '/');
    InsideMeansBelowBase(storage, filePath);
  }

  /** The request that shows the written guard's gap: with storage `/data`, the path
      `../attachments.noindex-old/secret` joins to
      `/data/attachments.noindex-old/secret`, which the written guard lets through
      and the intended guard refuses. */
  lemma SiblingPassesWrittenGuard()
    ensures var base := AttachmentsPath(Some("/" + "data")).value;
      var full := FullPath(base, UP + "/" + (BASE_NAME + "-old") + "/" + "secret");
      GuardAsWritten(full, base) && !Inside(full, base)
  {
    assert Named(BASE_NAME + "-old") && Named("data") && Named("secret");
    assert StartsWith(BASE_NAME + "-old", BASE_NAME);
    SiblingEscapes("data", BASE_NAME + "-old", "secret");
  }

  /** Any sibling whose name begins with the directory's name is reached by climbing
      one level from the directory: the written guard admits it, the intended one does not. */
  lemma SiblingEscapes(dir: string, sibling: string, file: string)
    requires Named(dir) && Named(sibling) && Named(file)
    requires sibling != BASE_NAME && StartsWith(sibling, BASE_NAME)
    ensures var base := AttachmentsPath(Some("/" + dir)).value;
      var full := FullPath(base, UP + "/" + sibling + "/" + file);
      GuardAsWritten(full, base) && !Inside(full, base)
  {
    var storage := "/" + dir;
    var filePath := UP + "/" + sibling + "/" + file;
    AbsoluteDir(dir);
    assert BaseSegs(storage) == [dir] + [BASE_NAME] == [dir, BASE_NAME];
    assert BASE_NAME != UP;
    SplitThree(UP, sibling, file);
    ClimbToSibling(dir, BASE_NAME, sibling, file);
    var f := FullSegs(storage, filePath);
    assert f == [dir, sibling, file];
    assert Sibling([dir, BASE_NAME], f);
    assert f[..2] != [dir, BASE_NAME] by {
      assert f[..2][1] == sibling;
    }
    WrittenGuardAdmitsSiblings(storage, filePath);
    InsideMeansBelowBase(storage, filePath);
  }

  lemma AbsoluteDir(dir: string)
    requires Named(dir)
    ensures ("/" + dir)[0] == '/' && Resolve([], Split("/" + dir), false) == [dir]
  {
    SplitCons("", dir);
    assert "" + "/" + dir == "/" + dir;
    assert Split(dir) == [dir];
    assert Resolve([], ["", dir], false) == Resolve([], [dir], false);
  }

  lemma SplitThree(a: string, b: string, c: string)
    requires NoSlash(a) && NoSlash(b) && NoSlash(c)
    ensures Split(a + "/" + b + "/" + c) == [a, b, c]
  {
    var bc := b + "/" + c;
    SplitTwo(b, c);
    SplitCons(a, bc);
    AppendAssoc(a + "/", b + "/", c);
    AppendAssoc(a + "/", b, "/");
  }

  lemma SplitTwo(b: string, c: string)
    requires NoSlash(b) && NoSlash(c)
    ensures Split(b + "/" + c) == [b, c]
  {
    SplitCons(b, c);
    assert Split(c) == [c];
  }

  lemma ClimbToSibling(dir: string, name: string, sibling: string, file: string)
    requires Named(sibling) && Named(file) && name != UP
    ensures Resolve([dir, name], [UP, sibling, file], false) == [dir, sibling, file]
  {
    assert Step([dir, name], UP, false) == [dir];
    assert [UP, sibling, file][1..] == [sibling, file];
    assert Resolve([dir, name], [UP, sibling, file], false) == Resolve([dir], [sibling, file], false);
    assert Step([dir], sibling, false) == [dir, sibling];
    assert [sibling, file][1..] == [file];
    assert Resolve([dir], [sibling, file], false) == Resolve([dir, sibling], [file], false);
    assert Step([dir, sibling], file, false) == [dir, sibling, file];
  }
}
