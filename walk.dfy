/** `iter_py_paths`: walk the source tree, prune hidden directories, skip the
    build, dist, docs, dev-utils and vendored-packages subtrees, and yield the
    path of every `.py` file that remains.  The directory walk itself is an
    input: the sequence of `(dirpath, dirnames, filenames)` entries it yields. */
module SourceWalk {
  import opened Text

  /** `os.sep` on POSIX. */
  const Sep: char := '/'

  /** `os.path.join(a, b)` on POSIX: an absolute `b` replaces `a`, otherwise a
      separator is inserted unless `a` is empty or already ends with one. */
  function Join(a: string, b: string): string
  {
    if b != [] && b[0] == Sep then b
    else if a == [] || a[|a| - 1] == Sep then a + b
    else a + [Sep] + b
  }

  /** A relative name is appended below `a`, behind a separator when `a` needs one. */
  lemma JoinRelative(a: string, b: string)
    requires b != [] && b[0] != Sep
    ensures a != [] && a[|a| - 1] != Sep ==> Join(a, b) == a + [Sep] + b
    ensures StartsWith(Join(a, b), a)
    ensures Join(a, b)[|Join(a, b)| - 1] == b[|b| - 1]
  {
    assert (a + b)[..|a|] == a;
    assert (a + [Sep] + b)[..|a|] == a;
  }

  /** The five subtrees the walk leaves out, in the order the source lists them. */
  function SkipRoots(root: string): seq<string>
  {
    [Join(root, "build"), Join(root, "dist"), Join(root, "docs"),
     Join(root, "dev-utils"), Join(Join(root, "quodlibet"), "packages")]
  }

  /** No skip root ends with a separator, whatever the root. */
  lemma SkipRootsShape(root: string)
    ensures |SkipRoots(root)| == 5
    ensures forall k :: 0 <= k < 5 ==> SkipRoots(root)[k] != [] && SkipRoots(root)[k][|SkipRoots(root)[k]| - 1] != Sep
  {
    JoinRelative(root, "build");
    JoinRelative(root, "dist");
    JoinRelative(root, "docs");
    JoinRelative(root, "dev-utils");
    JoinRelative(Join(root, "quodlibet"), "packages");
  }

  // ---------------------------------------------------------------------
  // The skip test

  /** `dirpath.startswith(s + os.sep) or s == dirpath`. */
  predicate Covers(s: string, dirpath: string)
  {
    StartsWith(dirpath, s + [Sep]) || s == dirpath
  }

  /** `any(... for s in skip)`, evaluated left to right. */
  function IsSkipped(dirpath: string, skip: seq<string>): (b: bool)
    ensures b <==> exists k :: 0 <= k < |skip| && Covers(skip[k], dirpath)
    decreases |skip|
  {
    if skip == [] then false
    else if Covers(skip[0], dirpath) then true
    else
      var rest := IsSkipped(dirpath, skip[1..]);
      assert forall k :: 1 <= k < |skip| ==> skip[k] == skip[1..][k - 1];
      assert rest <==> exists k :: 1 <= k < |skip| && Covers(skip[k], dirpath);
      rest
  }

  /** `dirpath` is the directory `s` or lies below it. */
  predicate Below(s: string, dirpath: string)
  {
    |s| <= |dirpath| && dirpath[..|s|] == s && (|dirpath| == |s| || dirpath[|s|] == Sep)
  }

  /** The two tests of the source, read together, say exactly `Below`. */
  lemma CoversIffBelow(s: string, dirpath: string)
    ensures Covers(s, dirpath) <==> Below(s, dirpath)
  {
    if StartsWith(dirpath, s + [Sep]) {
      assert dirpath[..|s|] == dirpath[..|s| + 1][..|s|];
      assert dirpath[|s|] == dirpath[..|s| + 1][|s|];
    }
    if Below(s, dirpath) && |s| < |dirpath| {
      assert dirpath[..|s| + 1] == dirpath[..|s|] + [dirpath[|s|]];
    }
  }

  /** Independent reading of the skip test: a directory is skipped exactly when
      it is one of the skip roots or lies below one. */
  lemma SkippedIffBelowRoot(dirpath: string, skip: seq<string>)
    ensures IsSkipped(dirpath, skip) <==> exists k :: 0 <= k < |skip| && Below(skip[k], dirpath)
  {
    forall k | 0 <= k < |skip| {
      CoversIffBelow(skip[k], dirpath);
    }
  }

  /** The separator matters: a sibling whose name merely extends a skip root
      (`build2` next to `build`) is not covered by that root. */
  lemma SiblingNotCovered(s: string, suffix: string)
    requires suffix != [] && suffix[0] != Sep
    ensures !Covers(s, s + suffix)
  {
    assert (s + suffix)[|s|] == suffix[0];
  }

  /** A relative name joined below a directory under `s` is under `s` too,
      provided `s` does not end with a separator. */
  lemma BelowJoin(s: string, dirpath: string, name: string)
    requires s != [] && s[|s| - 1] != Sep && Below(s, dirpath)
    requires name != [] && name[0] != Sep
    ensures Below(s, Join(dirpath, name))
  {
    JoinRelative(dirpath, name);
    var child := Join(dirpath, name);
    assert child[..|dirpath|] == dirpath;
    assert child[..|s|] == child[..|dirpath|][..|s|];
    if |dirpath| == |s| {
      assert dirpath == s;
      assert child[|s|] == Sep;
    } else {
      assert child[|s|] == child[..|dirpath|][|s|];
    }
  }

  /** Everything below a skipped directory is skipped as well. */
  lemma SubtreeSkipped(root: string, dirpath: string, name: string)
    requires IsSkipped(dirpath, SkipRoots(root))
    requires name != [] && name[0] != Sep
    ensures IsSkipped(Join(dirpath, name), SkipRoots(root))
  {
    var skip := SkipRoots(root);
    SkipRootsShape(root);
    var k :| 0 <= k < |skip| && Covers(skip[k], dirpath);
    CoversIffBelow(skip[k], dirpath);
    BelowJoin(skip[k], dirpath, name);
    CoversIffBelow(skip[k], Join(dirpath, name));
  }

  // ---------------------------------------------------------------------
  // Pruning hidden directories

  /** `name.startswith(".")`. */
  predicate IsHidden(name: string)
  {
    name != [] && name[0] == '.'
  }

  /** The names that do not start with a dot, in order. */
  function Visible(names: seq<string>): (r: seq<string>)
    ensures forall k :: 0 <= k < |r| ==> !IsHidden(r[k])
    decreases |names|
  {
    if names == [] then []
    else
      assert names == [names[0]] + names[1..];
      if IsHidden(names[0]) then Visible(names[1..]) else [names[0]] + Visible(names[1..])
  }

  lemma {:induction false} VisibleAppend(a: seq<string>, b: seq<string>)
    ensures Visible(a + b) == Visible(a) + Visible(b)
    decreases |a|
  {
    if a == [] {
      assert a + b == b;
    } else {
      assert (a + b)[0] == a[0];
      assert (a + b)[1..] == a[1..] + b;
      VisibleAppend(a[1..], b);
    }
  }

  /** Position of the first occurrence of `x`. */
  function IndexOf(names: seq<string>, x: string): (p: nat)
    requires x in names
    ensures p < |names| && names[p] == x && x !in names[..p]
    decreases |names|
  {
    if names[0] == x then 0
    else
      var p := 1 + IndexOf(names[1..], x);
      assert names[..p] == [names[0]] + names[1..][..p - 1];
      p
  }

  /** `list.remove(x)`: drop the first occurrence of `x`. */
  function RemoveFirst(names: seq<string>, x: string): (r: seq<string>)
    requires x in names
    ensures |r| == |names| - 1
  {
    var p := IndexOf(names, x);
    names[..p] + names[p + 1..]
  }

  /** `remove` takes out exactly one copy of `x`. */
  lemma RemoveFirstCount(names: seq<string>, x: string)
    requires x in names
    ensures multiset(RemoveFirst(names, x)) == multiset(names) - multiset{x}
  {
    var p := IndexOf(names, x);
    assert names == names[..p] + [x] + names[p + 1..];
  }

  /** Removing a hidden name keeps every visible one, in order. */
  lemma RemoveHiddenKeepsVisible(names: seq<string>, x: string)
    requires x in names && IsHidden(x)
    ensures Visible(RemoveFirst(names, x)) == Visible(names)
  {
    var p := IndexOf(names, x);
    assert names == names[..p] + ([x] + names[p + 1..]);
    VisibleAppend(names[..p], [x] + names[p + 1..]);
    VisibleAppend([x], names[p + 1..]);
    VisibleAppend(names[..p], names[p + 1..]);
  }

  /** The pruning loop with the semantics of a Python list iterator over a
      list that the loop body shrinks: the iterator holds an index `i`, reads
      `names[i]` and advances, and `remove` shifts the later names down. */
  function ListIterPrune(names: seq<string>, i: nat): seq<string>
    requires i <= |names| + 1
    decreases |names| + 1 - i
  {
    if i >= |names| then names
    else if IsHidden(names[i]) then ListIterPrune(RemoveFirst(names, names[i]), i + 1)
    else ListIterPrune(names, i + 1)
  }

  /** The loop never adds a name and never drops a visible one. */
  lemma {:induction false} ListIterPruneKeepsVisible(names: seq<string>, i: nat)
    requires i <= |names| + 1
    ensures multiset(ListIterPrune(names, i)) <= multiset(names)
    ensures Visible(ListIterPrune(names, i)) == Visible(names)
    decreases |names| + 1 - i
  {
    if i < |names| {
      if IsHidden(names[i]) {
        RemoveFirstCount(names, names[i]);
        RemoveHiddenKeepsVisible(names, names[i]);
        ListIterPruneKeepsVisible(RemoveFirst(names, names[i]), i + 1);
      } else {
        ListIterPruneKeepsVisible(names, i + 1);
      }
    }
  }

  /** The names at `j` and `k` differ. */
  predicate Differ(names: seq<string>, j: nat, k: nat)
    requires j < |names| && k < |names|
  {
    names[j] != names[k]
  }

  /** No name is listed twice. */
  predicate Distinct(names: seq<string>)
  {
    forall j: nat, k: nat :: j < k < |names| ==> Differ(names, j, k)
  }

  /** What the loop does when the names are distinct, as `os.listdir` returns
      them: a hidden name is removed and the name after it is kept without
      being looked at. */
  function SkipNextPrune(names: seq<string>): seq<string>
    decreases |names|
  {
    if names == [] then []
    else if !IsHidden(names[0]) then [names[0]] + SkipNextPrune(names[1..])
    else if |names| == 1 then []
    else [names[1]] + SkipNextPrune(names[2..])
  }

  /** With `x` absent from `done`, `remove(x)` takes out the `x` at the start of `rest`. */
  lemma RemoveFirstAfter(done: seq<string>, rest: seq<string>)
    requires rest != [] && rest[0] !in done
    ensures RemoveFirst(done + rest, rest[0]) == done + rest[1..]
  {
    var names, x := done + rest, rest[0];
    var p := IndexOf(names, x);
    assert forall j :: 0 <= j < |done| ==> names[j] == done[j];
    assert forall q :: |done| < q <= |names| ==> names[..q][|done|] == x;
    assert p == |done|;
  }

  lemma DistinctDropAt(done: seq<string>, rest: seq<string>)
    requires rest != [] && Distinct(done + rest)
    ensures rest[0] !in done
    ensures Distinct(done + rest[1..])
  {
    var names, shorter := done + rest, done + rest[1..];
    forall j | 0 <= j < |done| ensures done[j] != rest[0] {
      assert Differ(names, j, |done|);
      assert names[j] == done[j] && names[|done|] == rest[0];
    }
    forall j: nat, k: nat | j < k < |shorter| ensures Differ(shorter, j, k) {
      var j', k' := if j < |done| then j else j + 1, if k < |done| then k else k + 1;
      assert Differ(names, j', k');
      assert shorter[j] == names[j'] && shorter[k] == names[k'];
    }
  }

  /** One step of the pruning loop at a hidden name with distinct names: the
      name goes and the iterator lands past its successor. */
  lemma PruneStepHidden(done: seq<string>, rest: seq<string>)
    requires rest != [] && IsHidden(rest[0]) && Distinct(done + rest)
    ensures ListIterPrune(done + rest, |done|) == ListIterPrune(done + rest[1..], |done| + 1)
    ensures Distinct(done + rest[1..])
  {
    DistinctDropAt(done, rest);
    RemoveFirstAfter(done, rest);
    assert (done + rest)[|done|] == rest[0];
  }

  /** One step of the pruning loop at a visible name: the iterator moves on. */
  lemma PruneStepVisible(names: seq<string>, i: nat)
    requires i < |names| && !IsHidden(names[i])
    ensures ListIterPrune(names, i) == ListIterPrune(names, i + 1)
  {
  }

  /** Moving the head of `rest` onto the end of `done`. */
  lemma ShiftOne(done: seq<string>, x: string, tail: seq<string>)
    ensures (done + [x]) + tail == done + ([x] + tail)
  {
  }

  lemma {:induction false} ListIterPruneDistinct(done: seq<string>, rest: seq<string>)
    requires Distinct(done + rest)
    ensures ListIterPrune(done + rest, |done|) == done + SkipNextPrune(rest)
    decreases |rest|
  {
    if rest == [] {
      assert done + rest == done;
    } else if !IsHidden(rest[0]) {
      var done' := done + [rest[0]];
      assert (done + rest)[|done|] == rest[0];
      PruneStepVisible(done + rest, |done|);
      assert done + rest == done' + rest[1..];
      ListIterPruneDistinct(done', rest[1..]);
      ShiftOne(done, rest[0], SkipNextPrune(rest[1..]));
    } else {
      PruneStepHidden(done, rest);
      if |rest| == 1 {
        assert done + rest[1..] == done;
      } else {
        var done' := done + [rest[1]];
        assert done + rest[1..] == done' + rest[2..];
        ListIterPruneDistinct(done', rest[2..]);
        ShiftOne(done, rest[1], SkipNextPrune(rest[2..]));
      }
    }
  }

  /** `for dirname in dirnames: if dirname.startswith("."): dirnames.remove(dirname)`,
      run on the list `os.walk` handed out; the result is the list as the loop leaves it. */
  method PruneHidden(dirnames: seq<string>) returns (kept: seq<string>)
    ensures kept == ListIterPrune(dirnames, 0)
  {
    kept := dirnames;
    var i := 0;
    while i < |kept|
      invariant i <= |kept| + 1
      invariant ListIterPrune(kept, i) == ListIterPrune(dirnames, 0)
      decreases |kept| + 1 - i
    {
      var dirname := kept[i];
      i := i + 1;
      if IsHidden(dirname) {
        kept := RemoveFirst(kept, dirname);
      }
    }
  }

  /** `a` is `b` with some names deleted, the rest in their order. */
  predicate IsSubseq(a: seq<string>, b: seq<string>)
    decreases |b|
  {
    if a == [] then true
    else if b == [] then false
    else (a[0] == b[0] && IsSubseq(a[1..], b[1..])) || IsSubseq(a, b[1..])
  }

  lemma {:induction false} SubseqRefl(a: seq<string>)
    ensures IsSubseq(a, a)
    decreases |a|
  {
    if a != [] {
      SubseqRefl(a[1..]);
    }
  }

  lemma {:induction false} SubseqTrans(a: seq<string>, b: seq<string>, c: seq<string>)
    requires IsSubseq(a, b) && IsSubseq(b, c)
    ensures IsSubseq(a, c)
    decreases |c|
  {
    if a != [] && b != [] && c != [] {
      if b[0] == c[0] && IsSubseq(b[1..], c[1..]) {
        if a[0] == b[0] && IsSubseq(a[1..], b[1..]) {
          SubseqTrans(a[1..], b[1..], c[1..]);
        } else {
          SubseqTrans(a, b[1..], c[1..]);
        }
      } else {
        SubseqTrans(a, b, c[1..]);
      }
    }
  }

  /** Deleting one name leaves a subsequence. */
  lemma {:induction false} SubseqDeleteOne(front: seq<string>, x: string, back: seq<string>)
    ensures IsSubseq(front + back, front + [x] + back)
    decreases |front|
  {
    if front == [] {
      assert front + back == back && (front + [x] + back)[1..] == back;
      SubseqRefl(back);
    } else {
      assert (front + back)[0] == front[0] && (front + back)[1..] == front[1..] + back;
      assert (front + [x] + back)[0] == front[0] && (front + [x] + back)[1..] == front[1..] + [x] + back;
      SubseqDeleteOne(front[1..], x, back);
    }
  }

  lemma RemoveFirstSubseq(names: seq<string>, x: string)
    requires x in names
    ensures IsSubseq(RemoveFirst(names, x), names)
  {
    var p := IndexOf(names, x);
    assert names == names[..p] + [x] + names[p + 1..];
    SubseqDeleteOne(names[..p], x, names[p + 1..]);
  }

  /** The loop only deletes: what it leaves is a subsequence of the listing. */
  lemma {:induction false} ListIterPruneSubseq(names: seq<string>, i: nat)
    requires i <= |names| + 1
    ensures IsSubseq(ListIterPrune(names, i), names)
    decreases |names| + 1 - i
  {
    if i >= |names| {
      SubseqRefl(names);
    } else if IsHidden(names[i]) {
      var shorter := RemoveFirst(names, names[i]);
      RemoveFirstSubseq(names, names[i]);
      ListIterPruneSubseq(shorter, i + 1);
      SubseqTrans(ListIterPrune(shorter, i + 1), shorter, names);
    } else {
      ListIterPruneSubseq(names, i + 1);
    }
  }

  /** With distinct names, as a directory listing has, the loop removes a
      hidden name and never looks at the name after it. */
  lemma PruneSkipsNext(dirnames: seq<string>)
    requires Distinct(dirnames)
    ensures ListIterPrune(dirnames, 0) == SkipNextPrune(dirnames)
  {
    assert [] + dirnames == dirnames;
    ListIterPruneDistinct([], dirnames);
  }

  /** Two hidden directories in a row: the second is never examined, so the
      walk still descends into it. */
  lemma SecondHiddenSurvives()
    ensures ListIterPrune([".a", ".b", "c"], 0) == [".b", "c"]
  {
    var names := [".a", ".b", "c"];
    assert IsHidden(names[0]) && IsHidden(names[1]) && !IsHidden(names[2]);
    assert IndexOf(names, ".a") == 0;
    assert RemoveFirst(names, ".a") == [".b", "c"];
    var shorter := [".b", "c"];
    assert ListIterPrune(shorter, 1) == ListIterPrune(shorter, 2);
  }

  /** The evidently intended pruning, as in `dirnames[:] = [d for d in
      dirnames if not d.startswith(".")]`: every hidden name goes. */
  method PruneAllHidden(dirnames: seq<string>) returns (kept: seq<string>)
    ensures kept == Visible(dirnames)
    ensures forall k :: 0 <= k < |kept| ==> !IsHidden(kept[k])
  {
    kept := [];
    for i := 0 to |dirnames|
      invariant kept == Visible(dirnames[..i])
    {
      VisibleAppend(dirnames[..i], [dirnames[i]]);
      assert dirnames[..i + 1] == dirnames[..i] + [dirnames[i]];
      if !IsHidden(dirnames[i]) {
        kept := kept + [dirnames[i]];
      }
    }
    assert dirnames[..|dirnames|] == dirnames;
  }

  // ---------------------------------------------------------------------
  // The walk

  /** One entry yielded by `os.walk`. */
  datatype WalkEntry = WalkEntry(dirpath: string, dirnames: seq<string>, filenames: seq<string>)

  /** The `.py` files of one directory, joined to its path, in order. */
  function PyFiles(dirpath: string, filenames: seq<string>): seq<string>
    decreases |filenames|
  {
    if filenames == [] then []
    else
      var last := filenames[|filenames| - 1];
      PyFiles(dirpath, filenames[..|filenames| - 1]) + (if EndsWith(last, ".py") then [Join(dirpath, last)] else [])
  }

  /** Everything the generator yields for the walk `walk`. */
  function PyPaths(skip: seq<string>, walk: seq<WalkEntry>): seq<string>
    decreases |walk|
  {
    if walk == [] then []
    else
      var e := walk[|walk| - 1];
      PyPaths(skip, walk[..|walk| - 1]) + (if IsSkipped(e.dirpath, skip) then [] else PyFiles(e.dirpath, e.filenames))
  }

  lemma {:induction false} PyFilesMembers(dirpath: string, filenames: seq<string>, p: string)
    ensures p in PyFiles(dirpath, filenames) <==>
      exists f :: f in filenames && EndsWith(f, ".py") && p == Join(dirpath, f)
    decreases |filenames|
  {
    if filenames != [] {
      var init, last := filenames[..|filenames| - 1], filenames[|filenames| - 1];
      assert filenames == init + [last];
      PyFilesMembers(dirpath, init, p);
      if p in PyFiles(dirpath, filenames) && p !in PyFiles(dirpath, init) {
        assert last in filenames;
      }
      if exists f :: f in filenames && EndsWith(f, ".py") && p == Join(dirpath, f) {
        var f :| f in filenames && EndsWith(f, ".py") && p == Join(dirpath, f);
        if f != last {
          assert f in init;
        }
      }
    }
  }

  /** Every yielded path is a `.py` file of a directory that is not skipped,
      and every such file is yielded. */
  lemma {:induction false} PyPathsMembers(skip: seq<string>, walk: seq<WalkEntry>, p: string)
    ensures p in PyPaths(skip, walk) <==>
      exists k, f :: 0 <= k < |walk| && !IsSkipped(walk[k].dirpath, skip) && f in walk[k].filenames
        && EndsWith(f, ".py") && p == Join(walk[k].dirpath, f)
    decreases |walk|
  {
    if walk != [] {
      var init, e := walk[..|walk| - 1], walk[|walk| - 1];
      PyPathsMembers(skip, init, p);
      PyFilesMembers(e.dirpath, e.filenames, p);
      if p in PyPaths(skip, walk) && p !in PyPaths(skip, init) {
        var f :| f in e.filenames && EndsWith(f, ".py") && p == Join(e.dirpath, f);
        assert walk[|walk| - 1] == e;
      }
      if exists k, f :: 0 <= k < |walk| && !IsSkipped(walk[k].dirpath, skip) && f in walk[k].filenames && EndsWith(f, ".py") && p == Join(walk[k].dirpath, f) {
        var k, f :| 0 <= k < |walk| && !IsSkipped(walk[k].dirpath, skip) && f in walk[k].filenames
          && EndsWith(f, ".py") && p == Join(walk[k].dirpath, f);
        if k < |walk| - 1 {
          assert walk[k] == init[k];
        }
      }
    }
  }

  lemma PyPathsSnoc(skip: seq<string>, walk: seq<WalkEntry>, k: nat)
    requires k < |walk|
    ensures PyPaths(skip, walk[..k + 1]) == PyPaths(skip, walk[..k])
      + (if IsSkipped(walk[k].dirpath, skip) then [] else PyFiles(walk[k].dirpath, walk[k].filenames))
  {
    assert walk[..k + 1][..k] == walk[..k];
  }

  lemma PyFilesSnoc(dirpath: string, filenames: seq<string>, j: nat)
    requires j < |filenames|
    ensures PyFiles(dirpath, filenames[..j + 1]) == PyFiles(dirpath, filenames[..j])
      + (if EndsWith(filenames[j], ".py") then [Join(dirpath, filenames[j])] else [])
  {
    assert filenames[..j + 1][..j] == filenames[..j];
  }

  /** The inner loop: the `.py` files of one directory, joined to its path. */
  method YieldPyFiles(dirpath: string, filenames: seq<string>) returns (paths: seq<string>)
    ensures paths == PyFiles(dirpath, filenames)
  {
    paths := [];
    for j := 0 to |filenames|
      invariant paths == PyFiles(dirpath, filenames[..j])
    {
      PyFilesSnoc(dirpath, filenames, j);
      if EndsWith(filenames[j], ".py") {
        paths := paths + [Join(dirpath, filenames[j])];
      }
    }
    assert filenames[..|filenames|] == filenames;
  }

  /** The `dirnames` lists as the pruning loop leaves them, entry by entry. */
  function PrunedLists(walk: seq<WalkEntry>): (lists: seq<seq<string>>)
    ensures |lists| == |walk|
    decreases |walk|
  {
    if walk == [] then []
    else PrunedLists(walk[..|walk| - 1]) + [ListIterPrune(walk[|walk| - 1].dirnames, 0)]
  }

  lemma {:induction false} PrunedListsAt(walk: seq<WalkEntry>)
    ensures forall k :: 0 <= k < |walk| ==> PrunedLists(walk)[k] == ListIterPrune(walk[k].dirnames, 0)
    decreases |walk|
  {
    if walk != [] {
      var init := walk[..|walk| - 1];
      PrunedListsAt(init);
      forall k | 0 <= k < |walk| ensures PrunedLists(walk)[k] == ListIterPrune(walk[k].dirnames, 0) {
        if k < |init| {
          assert walk[k] == init[k];
        }
      }
    }
  }

  lemma PrunedListsSnoc(walk: seq<WalkEntry>, k: nat)
    requires k < |walk|
    ensures PrunedLists(walk[..k + 1]) == PrunedLists(walk[..k]) + [ListIterPrune(walk[k].dirnames, 0)]
  {
    assert walk[..k + 1][..k] == walk[..k];
  }

  /** `iter_py_paths()` over the walk of `root`.  Besides the yielded paths it
      returns, per walk entry, the `dirnames` list as the pruning loop leaves
      it: the list `os.walk` then descends into. */
  method IterPyPaths(root: string, walk: seq<WalkEntry>) returns (paths: seq<string>, descend: seq<seq<string>>)
    ensures paths == PyPaths(SkipRoots(root), walk)
    ensures |descend| == |walk|
    ensures forall k :: 0 <= k < |walk| ==> descend[k] == ListIterPrune(walk[k].dirnames, 0)
  {
    var skip := SkipRoots(root);
    paths, descend := [], [];
    for k := 0 to |walk|
      invariant paths == PyPaths(skip, walk[..k])
      invariant descend == PrunedLists(walk[..k])
    {
      PyPathsSnoc(skip, walk, k);
      PrunedListsSnoc(walk, k);
      var dirnames := PruneHidden(walk[k].dirnames);
      descend := descend + [dirnames];
      if !IsSkipped(walk[k].dirpath, skip) {
        var found := YieldPyFiles(walk[k].dirpath, walk[k].filenames);
        paths := paths + found;
      }
    }
    assert walk[..|walk|] == walk;
    PrunedListsAt(walk);
  }
}
