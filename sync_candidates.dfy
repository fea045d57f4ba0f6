/**
 * The candidate list of `app/api/sync-content/route.ts`: which files of a
 * push event the handler goes on to fetch. Two nested loops walk the
 * commits and their added-then-modified paths and push every
 * `episodes/<name>.md` path's last segment, with a status taken from the commit's
 * `added` list; a `Set` of file names then keeps the first entry per name.
 *
 * `commit.added.includes(...)` is evaluated only for a matching path, and
 * throws when the commit has no `added` list; the throw is outside any
 * `try`, so the whole collection is then `None`.
 */
module SyncCandidates {
  import opened Wrappers
  import opened Text

  datatype ChangeStatus = Added | Modified

  datatype FileInfo = FileInfo(filename: string, status: ChangeStatus)

  /** A commit of the push payload; either list may be missing from the JSON. */
  datatype Commit = Commit(added: Option<seq<string>>, modified: Option<seq<string>>)

  const EpisodesDir: string := "episodes/"

  /** `list ?? []`. */
  function OrEmpty(list: Option<seq<string>>): seq<string> {
    if list.Some? then list.value else []
  }

  /** `[...addedFiles, ...modifiedFiles]`. */
  function ChangedFiles(c: Commit): seq<string> {
    OrEmpty(c.added) + OrEmpty(c.modified)
  }

  /** `filePath.endsWith(".md") && filePath.startsWith("episodes/")`. */
  predicate IsEpisodeMarkdown(path: string) {
    EndsWith(path, ".md") && StartsWith(path, EpisodesDir)
  }

  predicate NoSlash(s: string) {
    forall i :: 0 <= i < |s| ==> s[i] != '/'
  }

  /**
   * `filePath.split("/").pop()`: the segment after the last `/`, that is the
   * longest suffix without a `/` (`BasenameIsLastSplitPart`).
   */
  function Basename(path: string): string
    decreases |path|
  {
    if |path| == 0 || path[|path| - 1] == '/' then ""
    else Basename(path[..|path| - 1]) + [path[|path| - 1]]
  }

  /** The last segment is a suffix without `/`, and the whole path or preceded by a `/`. */
  lemma {:induction false} BasenameIsSlashFreeSuffix(path: string)
    ensures var b := Basename(path);
            && NoSlash(b) && EndsWith(path, b)
            && (|b| == |path| || path[|path| - |b| - 1] == '/')
    decreases |path|
  {
    if |path| > 0 && path[|path| - 1] != '/' {
      var init := path[..|path| - 1];
      BasenameIsSlashFreeSuffix(init);
      var b := Basename(init);
      assert Basename(path) == b + [path[|path| - 1]];
      assert path[|path| - |b| - 1..] == init[|init| - |b|..] + [path[|path| - 1]];
      if |b| < |init| {
        assert path[|path| - |b| - 2] == init[|init| - |b| - 1];
      }
    }
  }

  /** A path without `/` is its own last segment. */
  lemma {:induction false} BasenameWithoutSlash(s: string)
    requires NoSlash(s)
    ensures Basename(s) == s
    decreases |s|
  {
    if |s| > 0 {
      BasenameWithoutSlash(s[..|s| - 1]);
    }
  }

  /** Whatever precedes a `/` does not affect the last segment. */
  lemma {:induction false} BasenameAfterSlashAt(path: string, i: nat)
    requires i < |path| && path[i] == '/'
    ensures Basename(path) == Basename(path[i + 1..])
    decreases |path|
  {
    var n := |path|;
    var rest := path[i + 1..];
    if path[n - 1] == '/' {
      if i + 1 < n {
        assert rest[|rest| - 1] == '/';
      }
    } else {
      BasenameAfterSlashAt(path[..n - 1], i);
      assert path[..n - 1][i + 1..] == rest[..|rest| - 1];
    }
  }

  lemma BasenameAfterSlash(a: string, rest: string)
    ensures Basename(a + "/" + rest) == Basename(rest)
  {
    var path := a + "/" + rest;
    assert path[|a|] == '/' && path[|a| + 1..] == rest;
    BasenameAfterSlashAt(path, |a|);
  }

  /** `Basename` is the last part `split("/")` produces. */
  lemma {:induction false} BasenameIsLastSplitPart(path: string)
    ensures var parts := Split(path, "/");
            Basename(path) == parts[|parts| - 1]
    decreases |path|
  {
    if IndexOf(path, "/").None? {
      NotFoundAbsentChar(path, '/');
      BasenameWithoutSlash(path);
      SplitWithoutSeparator(path, "/");
    } else {
      var i := IndexOf(path, "/").value;
      assert path[i..i + 1] == "/";
      BasenameAfterSlashAt(path, i);
      BasenameIsLastSplitPart(path[i + 1..]);
      SplitLastAfterFirst(path, "/", i);
    }
  }

  /** The handler later fetches `episodes/<name>`: for a path directly inside the folder that is the path itself. */
  lemma BasenameOfEpisodeFile(name: string)
    requires NoSlash(name)
    ensures Basename(EpisodesDir + name) == name
    ensures EpisodesDir + Basename(EpisodesDir + name) == EpisodesDir + name
  {
    BasenameUnderEpisodes(name);
    BasenameWithoutSlash(name);
  }

  lemma BasenameUnderEpisodes(rest: string)
    ensures Basename(EpisodesDir + rest) == Basename(rest)
  {
    assert EpisodesDir + rest == "episodes" + "/" + rest;
    BasenameAfterSlash("episodes", rest);
  }

  /**
   * A file in a sub-folder loses its folder: `episodes/<folder>/<name>` and
   * `episodes/<name>` yield the same name, so only `episodes/<name>` is fetched.
   */
  lemma NestedPathCollapses(folder: string, name: string)
    requires NoSlash(name)
    ensures Basename(EpisodesDir + (folder + "/" + name)) == Basename(EpisodesDir + name) == name
  {
    BasenameUnderEpisodes(folder + "/" + name);
    BasenameUnderEpisodes(name);
    BasenameAfterSlash(folder, name);
    BasenameWithoutSlash(name);
  }

  /** The entry pushed for one matching path, or `None` when `commit.added.includes` throws. */
  function Entry(c: Commit, path: string): Option<FileInfo> {
    if c.added.None? then None
    else Some(FileInfo(Basename(path), if path in c.added.value then Added else Modified))
  }

  /** What the inner loop pushes for the paths `paths` of commit `c`. */
  function ScanPaths(c: Commit, paths: seq<string>): Option<seq<FileInfo>>
    decreases |paths|
  {
    if |paths| == 0 then Some([])
    else
      match ScanPaths(c, paths[..|paths| - 1])
      case None => None
      case Some(acc) =>
        var path := paths[|paths| - 1];
        if !IsEpisodeMarkdown(path) then Some(acc)
        else
          match Entry(c, path)
          case None => None
          case Some(f) => Some(acc + [f])
  }

  /** What both loops push for the commits `commits`, or `None` if one of them throws. */
  function CollectSpec(commits: seq<Commit>): Option<seq<FileInfo>>
    decreases |commits|
  {
    if |commits| == 0 then Some([])
    else
      match CollectSpec(commits[..|commits| - 1])
      case None => None
      case Some(acc) =>
        match ScanPaths(commits[|commits| - 1], ChangedFiles(commits[|commits| - 1]))
        case None => None
        case Some(fs) => Some(acc + fs)
  }

  lemma {:induction false} ScanPathsNoneExtends(c: Commit, paths: seq<string>, n: nat)
    requires n <= |paths| && ScanPaths(c, paths[..n]).None?
    ensures ScanPaths(c, paths).None?
    decreases |paths| - n
  {
    if n < |paths| {
      assert paths[..n + 1][..n] == paths[..n];
      ScanPathsNoneExtends(c, paths, n + 1);
    } else {
      assert paths[..n] == paths;
    }
  }

  lemma {:induction false} CollectNoneExtends(commits: seq<Commit>, n: nat)
    requires n <= |commits| && CollectSpec(commits[..n]).None?
    ensures CollectSpec(commits).None?
    decreases |commits| - n
  {
    if n < |commits| {
      assert commits[..n + 1][..n] == commits[..n];
      CollectNoneExtends(commits, n + 1);
    } else {
      assert commits[..n] == commits;
    }
  }

  /** The two nested loops that fill `mdFilesToProcess`. */
  method CollectMarkdownFiles(commits: seq<Commit>) returns (r: Option<seq<FileInfo>>)
    ensures r == CollectSpec(commits)
  {
    var files: seq<FileInfo> := [];
    for i := 0 to |commits|
      invariant CollectSpec(commits[..i]) == Some(files)
    {
      var commit := commits[i];
      var changed := ChangedFiles(commit);
      var pushed: seq<FileInfo> := [];
      for j := 0 to |changed|
        invariant ScanPaths(commit, changed[..j]) == Some(pushed)
      {
        var path := changed[j];
        assert changed[..j + 1][..j] == changed[..j];
        if IsEpisodeMarkdown(path) {
          if commit.added.None? {
            ScanPathsNoneExtends(commit, changed, j + 1);
            assert commits[..i + 1][..i] == commits[..i];
            CollectNoneExtends(commits, i + 1);
            return None;
          }
          pushed := pushed + [FileInfo(Basename(path), if path in commit.added.value then Added else Modified)];
        }
      }
      assert changed[..|changed|] == changed;
      assert commits[..i + 1][..i] == commits[..i];
      files := files + pushed;
    }
    assert commits[..|commits|] == commits;
    return Some(files);
  }

  /** A commit whose paths include an `episodes/<name>.md` file but which carries no `added` list. */
  predicate Throws(c: Commit) {
    c.added.None? && exists p :: p in OrEmpty(c.modified) && IsEpisodeMarkdown(p)
  }

  lemma {:induction false} ScanPathsNoneIff(c: Commit, paths: seq<string>)
    ensures ScanPaths(c, paths).None? <==> c.added.None? && exists p :: p in paths && IsEpisodeMarkdown(p)
    decreases |paths|
  {
    if |paths| > 0 {
      var init := paths[..|paths| - 1];
      ScanPathsNoneIff(c, init);
      if c.added.None? && exists p :: p in paths && IsEpisodeMarkdown(p) {
        var p :| p in paths && IsEpisodeMarkdown(p);
        if p != paths[|paths| - 1] {
          assert p in init;
        }
      }
    }
  }

  lemma {:induction false} FailureHasThrowingCommit(commits: seq<Commit>)
    requires CollectSpec(commits).None?
    ensures exists c :: c in commits && Throws(c)
    decreases |commits|
  {
    var init := commits[..|commits| - 1];
    var last := commits[|commits| - 1];
    if CollectSpec(init).None? {
      FailureHasThrowingCommit(init);
      var c :| c in init && Throws(c);
      assert c in commits;
    } else {
      ScanPathsNoneIff(last, ChangedFiles(last));
      // with no `added` list the changed files are the modified ones
      assert ChangedFiles(last) == OrEmpty(last.modified);
      assert Throws(last);
    }
  }

  lemma {:induction false} ThrowingCommitFails(commits: seq<Commit>, c: Commit)
    requires c in commits && Throws(c)
    ensures CollectSpec(commits).None?
    decreases |commits|
  {
    var init := commits[..|commits| - 1];
    var last := commits[|commits| - 1];
    if c != last {
      assert c in init;
      ThrowingCommitFails(init, c);
    } else {
      var p :| p in OrEmpty(c.modified) && IsEpisodeMarkdown(p);
      assert p in ChangedFiles(last);
      ScanPathsNoneIff(last, ChangedFiles(last));
    }
  }

  /** The collection fails exactly when some commit without an `added` list modifies an episode file. */
  lemma CollectFailsIff(commits: seq<Commit>)
    ensures CollectSpec(commits).None? <==> exists c :: c in commits && Throws(c)
  {
    if CollectSpec(commits).None? {
      FailureHasThrowingCommit(commits);
    }
    if exists c :: c in commits && Throws(c) {
      var c :| c in commits && Throws(c);
      ThrowingCommitFails(commits, c);
    }
  }

  /** `f` is what the inner loop pushes for some `episodes/<name>.md` path of commit `c`. */
  predicate PushedFor(f: FileInfo, c: Commit) {
    exists p :: p in ChangedFiles(c) && IsEpisodeMarkdown(p) && f == FileInfo(Basename(p), if p in OrEmpty(c.added) then Added else Modified)
  }

  lemma {:induction false} ScanPathsExact(c: Commit, paths: seq<string>)
    requires ScanPaths(c, paths).Some?
    ensures forall f :: f in ScanPaths(c, paths).value ==>
              exists p :: p in paths && IsEpisodeMarkdown(p) && f == FileInfo(Basename(p), if p in OrEmpty(c.added) then Added else Modified)
    ensures forall p :: p in paths && IsEpisodeMarkdown(p) ==>
              FileInfo(Basename(p), if p in OrEmpty(c.added) then Added else Modified) in ScanPaths(c, paths).value
    decreases |paths|
  {
    if |paths| > 0 {
      var init := paths[..|paths| - 1];
      ScanPathsExact(c, init);
      forall p | p in paths && IsEpisodeMarkdown(p)
        ensures FileInfo(Basename(p), if p in OrEmpty(c.added) then Added else Modified) in ScanPaths(c, paths).value
      {
        if p != paths[|paths| - 1] {
          assert p in init;
        }
      }
    }
  }

  /**
   * Every collected entry comes from an `episodes/<name>.md` path of some commit,
   * named by its last segment, `Added` exactly when the commit lists it as
   * added; and every such path yields its entry.
   */
  lemma {:induction false} CollectedExactly(commits: seq<Commit>)
    requires CollectSpec(commits).Some?
    ensures forall f :: f in CollectSpec(commits).value ==> exists c :: c in commits && PushedFor(f, c)
    ensures forall c, p :: c in commits && p in ChangedFiles(c) && IsEpisodeMarkdown(p) ==>
              FileInfo(Basename(p), if p in OrEmpty(c.added) then Added else Modified) in CollectSpec(commits).value
    decreases |commits|
  {
    if |commits| > 0 {
      var init := commits[..|commits| - 1];
      var last := commits[|commits| - 1];
      CollectedExactly(init);
      ScanPathsExact(last, ChangedFiles(last));
      forall f | f in CollectSpec(commits).value ensures exists c :: c in commits && PushedFor(f, c) {
        if f in CollectSpec(init).value {
          var c :| c in init && PushedFor(f, c);
          assert c in commits;
        } else {
          assert PushedFor(f, last);
        }
      }
      forall c, p | c in commits && p in ChangedFiles(c) && IsEpisodeMarkdown(p)
        ensures FileInfo(Basename(p), if p in OrEmpty(c.added) then Added else Modified) in CollectSpec(commits).value
      {
        if c != last {
          assert c in init;
        }
      }
    }
  }

  predicate HasName(fs: seq<FileInfo>, name: string) {
    exists g :: g in fs && g.filename == name
  }

  /**
   * `Array.from(new Set(names)).map(name => files.find(...))`: one entry per
   * file name, in the order the names are first seen, each the first entry
   * pushed under that name.
   */
  function UniqueByFilename(fs: seq<FileInfo>): (r: seq<FileInfo>)
    ensures forall i, j :: 0 <= i < j < |r| ==> r[i].filename != r[j].filename
    ensures forall g :: g in r ==> g in fs
    ensures forall f :: f in fs ==> HasName(r, f.filename)
    decreases |fs|
  {
    if |fs| == 0 then []
    else
      var init := fs[..|fs| - 1];
      var rest := UniqueByFilename(init);
      var f := fs[|fs| - 1];
      assert forall g :: g in fs ==> g in init || g == f;
      if HasName(rest, f.filename) then rest
      else
        assert forall g :: g in rest ==> HasName(rest + [f], g.filename);
        rest + [f]
  }

  /** No entry of `fs` before index `k` has the name of `fs[k]`. */
  predicate FirstWithName(fs: seq<FileInfo>, k: int)
    requires 0 <= k < |fs|
  {
    forall i :: 0 <= i < k ==> fs[i].filename != fs[k].filename
  }

  lemma FirstWithNameExtends(fs: seq<FileInfo>, k: int)
    requires 0 <= k < |fs| - 1 && FirstWithName(fs[..|fs| - 1], k)
    ensures FirstWithName(fs, k)
  {
    var init := fs[..|fs| - 1];
    forall i | 0 <= i < k ensures fs[i].filename != fs[k].filename {
      assert fs[i] == init[i] && fs[k] == init[k];
    }
  }

  /** A name the earlier entries do not have is first seen at the last entry. */
  lemma LastIsFirstWithName(fs: seq<FileInfo>)
    requires |fs| > 0
    requires !HasName(UniqueByFilename(fs[..|fs| - 1]), fs[|fs| - 1].filename)
    ensures FirstWithName(fs, |fs| - 1)
  {
    var init := fs[..|fs| - 1];
    var k := |fs| - 1;
    forall i | 0 <= i < k ensures fs[i].filename != fs[k].filename {
      assert fs[i] in init;
    }
  }

  /** Each kept entry is the first one pushed under its name (`find` returns the first match). */
  lemma {:induction false} UniqueKeepsFirstSeen(fs: seq<FileInfo>)
    ensures forall m :: 0 <= m < |UniqueByFilename(fs)| ==>
              exists k :: 0 <= k < |fs| && fs[k] == UniqueByFilename(fs)[m] && FirstWithName(fs, k)
    decreases |fs|
  {
    if |fs| > 0 {
      var init := fs[..|fs| - 1];
      var r := UniqueByFilename(fs);
      var rest := UniqueByFilename(init);
      var last := |fs| - 1;
      UniqueKeepsFirstSeen(init);
      forall m | 0 <= m < |r|
        ensures exists k :: 0 <= k < |fs| && fs[k] == r[m] && FirstWithName(fs, k)
      {
        if m < |rest| {
          assert r[m] == rest[m];
          var k :| 0 <= k < |init| && init[k] == rest[m] && FirstWithName(init, k);
          FirstWithNameExtends(fs, k);
          assert fs[k] == r[m];
        } else {
          assert r == rest + [fs[last]];
          LastIsFirstWithName(fs);
          assert fs[last] == r[m];
        }
      }
    } else {
      assert UniqueByFilename(fs) == [];
    }
  }
}
