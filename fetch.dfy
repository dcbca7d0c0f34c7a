/**
 * Reading the input entries, deriving each repository's directory name and
 * cloning the batch: `fetch_repo_structure` and `clone_and_display_structure`.
 * The clone itself is a call into GitPython; here it is characterised only by
 * when it raises.
 */
module Fetch {
  import opened Basics
  import opened Text
  import opened Paths
  import opened Tree

  datatype InputError = MissingUrl | MissingExtension

  /** The three entries after splitting: URLs, the target folder and the extensions. */
  datatype Request = Request(urls: seq<string>, target: string, extensions: seq<string>)

  /** `self.entry_folder.get() or os.getcwd()`. */
  function TargetFolder(entry: string, cwd: string): string {
    if entry == "" then cwd else entry
  }

  /**
   * `fetch_repo_structure`'s validation. Both entries are split on ','. The
   * request is refused exactly when the first URL piece is empty, that is when
   * the URL text is empty or starts with ','. The "no extension" refusal never
   * happens, since a split always yields at least one piece.
   */
  function ParseRequest(urlText: string, folderText: string, cwd: string, extText: string): (r: Result<Request, InputError>)
    ensures r.Err? <==> (urlText == "" || urlText[0] == ',')
    ensures r.Err? ==> r.error == MissingUrl
    ensures r.Ok? ==>
      && r.value.urls != [] && r.value.urls[0] != ""
      && JoinWith(r.value.urls, ',') == urlText
      && (forall i :: 0 <= i < |r.value.urls| ==> ',' !in r.value.urls[i])
      && r.value.extensions != []
      && JoinWith(r.value.extensions, ',') == extText
      && (forall i :: 0 <= i < |r.value.extensions| ==> ',' !in r.value.extensions[i])
      && r.value.target == TargetFolder(folderText, cwd)
  {
    var urls := Split(urlText, ',');
    var extensions := Split(extText, ',');
    SplitFirstEmpty(urlText, ',');
    JoinSplit(urlText, ',');
    JoinSplit(extText, ',');
    SplitPiecesFree(urlText, ',');
    SplitPiecesFree(extText, ',');
    if urls[0] == "" then Err(MissingUrl)
    else if |extensions| == 0 then Err(MissingExtension)
    else Ok(Request(urls, TargetFolder(folderText, cwd), extensions))
  }

  /**
   * The local directory name for an already stripped URL:
   * `url.split('/')[-1].replace('.git', '')`. Every ".git" met in a
   * left-to-right scan of the last segment is removed, not only a trailing one.
   * The name never holds a '/'.
   */
  function RepoName(url: string): (name: string)
    ensures '/' !in name
    ensures |name| <= |url|
  {
    ReplaceAllShrinks(LastSegment(url), ".git");
    LastSegmentSuffix(url);
    ReplaceAll(LastSegment(url), ".git", "")
  }

  /**
   * For the usual URL, `<host and owner>/<base>.git` with no other ".git" in
   * `base`, the derived name is `base`: the trailing suffix is all that goes.
   */
  lemma RepoNameOfGitUrl(prefix: string, base: string)
    requires '/' !in base && !Contains(base, ".git")
    ensures RepoName(prefix + "/" + base + ".git") == base
  {
    assert prefix + "/" + base + ".git" == prefix + "/" + (base + ".git");
    LastSegmentAfterSlash(prefix, base + ".git");
    ReplaceGitSuffix(base);
  }

  /** A URL without ".git" in its last segment keeps that segment as its name. */
  lemma RepoNameWithoutGit(prefix: string, base: string)
    requires '/' !in base && !Contains(base, ".git")
    ensures RepoName(prefix + "/" + base) == base
  {
    LastSegmentAfterSlash(prefix, base);
    ReplaceAllAbsent(base, ".git", "");
  }

  /** Every ".git" goes, wherever it stands: "a/foo.git.gitx" names the directory "foox". */
  lemma RepoNameRemovesEveryGit()
    ensures RepoName("a/foo.git.gitx") == "foox"
  {
    var url := "a/foo.git.gitx";
    assert url == "a" + "/" + "foo.git.gitx";
    LastSegmentAfterSlash("a", "foo.git.gitx");
    ReplaceFooExample();
  }

  lemma ReplaceFooExample()
    ensures ReplaceAll("foo.git.gitx", ".git", "") == "foox"
  {
    assert ReplaceAll("x", ".git", "") == "x";
    assert ReplaceAll(".gitx", ".git", "") == "x" by {
      assert ".gitx"[..4] == ".git" && ".gitx"[4..] == "x";
    }
    assert ReplaceAll(".git.gitx", ".git", "") == "x" by {
      assert ".git.gitx"[..4] == ".git" && ".git.gitx"[4..] == ".gitx";
    }
    assert ReplaceAll("o.git.gitx", ".git", "") == "ox" by {
      assert "o.git.gitx"[..4][0] == 'o' && "o.git.gitx"[1..] == ".git.gitx";
    }
    assert ReplaceAll("oo.git.gitx", ".git", "") == "oox" by {
      assert "oo.git.gitx"[..4][0] == 'o' && "oo.git.gitx"[1..] == "o.git.gitx";
    }
    assert "foo.git.gitx"[..4][0] == 'f' && "foo.git.gitx"[1..] == "oo.git.gitx";
  }

  /**
   * Because the replacement is not a suffix strip, a GitHub Pages repository
   * loses part of its name: "u/u.github.io.git" is cloned into "uhub.io".
   */
  lemma RepoNameMangledPagesRepo()
    ensures RepoName("u/u.github.io.git") == "uhub.io"
  {
    var url := "u/u.github.io.git";
    assert url == "u" + "/" + "u.github.io.git";
    LastSegmentAfterSlash("u", "u.github.io.git");
    ReplacePagesExample();
  }

  lemma ReplacePagesExample()
    ensures ReplaceAll("u.github.io.git", ".git", "") == "uhub.io"
  {
    ReplaceGithubIoExample();
    assert "u.github.io.git"[..4][0] == 'u' && "u.github.io.git"[1..] == ".github.io.git";
  }

  lemma ReplaceGithubIoExample()
    ensures ReplaceAll(".github.io.git", ".git", "") == "hub.io"
  {
    HubIoHasNoGit();
    ReplaceGitSuffix("hub.io");
    assert ".github.io.git"[..4] == ".git" && ".github.io.git"[4..] == "hub.io" + ".git";
  }

  lemma HubIoHasNoGit()
    ensures !Contains("hub.io", ".git")
  {
    forall i: nat | i <= 6 ensures !OccursAt("hub.io", ".git", i) {
      if i <= 2 {
        assert "hub.io"[i..i + 4][0] == "hub.io"[i] != '.';
      }
    }
  }

  /**
   * A URL ending in '/' has an empty last segment, so its name is empty and
   * the clone goes into the target folder itself.
   */
  lemma RepoNameOfTrailingSlash(target: string, prefix: string)
    requires target != [] && target[|target| - 1] != '/'
    ensures RepoName(Strip(prefix + "/")) == ""
    ensures TargetPath(target, prefix + "/") == target + "/"
  {
    var url := prefix + "/";
    var k := |url| - |TrimLeft(url)|;
    var stripped := Strip(url);
    assert !IsSpace(url[|url| - 1]);
    assert k + |stripped| == |url|;
    assert stripped != [] && stripped[|stripped| - 1] == '/';
    assert stripped == stripped[..|stripped| - 1] + "/";
    LastSegmentAfterSlash(stripped[..|stripped| - 1], "");
  }

  /** `os.path.join(target_folder, repo_name)` for the stripped URL. */
  function TargetPath(target: string, url: string): string {
    Join(target, RepoName(Strip(url)))
  }

  /** `all_repos` when the whole batch clones: one path per URL, in input order. */
  function ClonePaths(target: string, urls: seq<string>): (paths: seq<string>)
    ensures |paths| == |urls|
    ensures forall i :: 0 <= i < |urls| ==> paths[i] == TargetPath(target, urls[i])
  {
    seq(|urls|, i requires 0 <= i < |urls| => TargetPath(target, urls[i]))
  }

  /**
   * Each clone goes directly into the target folder: its path starts with the
   * target folder and its basename is the name derived from the stripped URL.
   */
  lemma ClonePathsInTarget(target: string, urls: seq<string>)
    ensures forall i :: 0 <= i < |urls| ==>
      StartsWith(ClonePaths(target, urls)[i], target)
      && LastSegment(ClonePaths(target, urls)[i]) == RepoName(Strip(urls[i]))
  {
    var paths := ClonePaths(target, urls);
    forall i | 0 <= i < |urls|
      ensures StartsWith(paths[i], target) && LastSegment(paths[i]) == RepoName(Strip(urls[i]))
    {
      var name := RepoName(Strip(urls[i]));
      BasenameOfJoin(target, name);
      assert name != [] ==> name[0] in name;
      assert paths[i] == Join(target, name);
      assert paths[i][..|target|] == target;
    }
  }

  /**
   * The roots shown after a fetch are titled with the derived repository
   * names, in URL order.
   */
  lemma FetchedRootsNamed(target: string, urls: seq<string>, extensions: seq<string>, disk: map<string, seq<Entry>>)
    ensures var roots := BuildRoots(ClonePaths(target, urls), extensions, disk);
      |roots| == |urls|
      && forall i :: 0 <= i < |urls| ==>
        roots[i].text == RepoName(Strip(urls[i])) && roots[i].value == None && roots[i].folder
  {
    ClonePathsInTarget(target, urls);
  }

  /** The stripped URLs of a batch, in input order: the remotes `Repo.clone_from` is given. */
  function Remotes(urls: seq<string>): (remotes: seq<string>)
    ensures |remotes| == |urls|
    ensures forall i :: 0 <= i < |urls| ==> remotes[i] == Strip(urls[i])
  {
    seq(|urls|, i requires 0 <= i < |urls| => Strip(urls[i]))
  }

  /**
   * `Repo.clone_from` raises for the `i`-th clone of a batch with these remotes
   * and target paths: the remote cannot be cloned, or the target directory is
   * already non-empty, because it was there before the fetch or because an
   * earlier clone of the same batch has the same target path. Paths are
   * compared as strings.
   */
  predicate CloneFails(remotes: seq<string>, paths: seq<string>, i: nat, unreachable: set<string>, occupied: set<string>)
    requires i < |remotes| == |paths|
  {
    remotes[i] in unreachable || paths[i] in occupied || paths[i] in paths[..i]
  }

  /** When no clone of the batch fails, the batch's target paths are pairwise distinct and none was occupied. */
  lemma ClonePathsDistinct(remotes: seq<string>, paths: seq<string>, unreachable: set<string>, occupied: set<string>)
    requires |remotes| == |paths|
    requires forall i :: 0 <= i < |paths| ==> !CloneFails(remotes, paths, i, unreachable, occupied)
    ensures forall i, j :: 0 <= i < j < |paths| ==> paths[i] != paths[j]
    ensures forall i :: 0 <= i < |paths| ==> paths[i] !in occupied
  {
    forall i, j | 0 <= i < j < |paths| ensures paths[i] != paths[j] {
      assert !CloneFails(remotes, paths, j, unreachable, occupied);
      assert paths[..j][i] == paths[i];
    }
    forall i | 0 <= i < |paths| ensures paths[i] !in occupied {
      assert !CloneFails(remotes, paths, i, unreachable, occupied);
    }
  }

  datatype CloneError = CloneFailed(index: nat, url: string)

  /** No clone among the first `n` of the batch fails. */
  predicate NoneFails(remotes: seq<string>, paths: seq<string>, n: nat, unreachable: set<string>, occupied: set<string>)
    requires n <= |remotes| == |paths|
  {
    forall j :: 0 <= j < n ==> !CloneFails(remotes, paths, j, unreachable, occupied)
  }

  /**
   * The clone loop over already derived remotes and target paths. The first
   * clone that raises ends the batch with an error naming its remote (the
   * repositories cloned before it stay on disk); otherwise every target path
   * is collected, in order.
   */
  method CloneBatch(remotes: seq<string>, paths: seq<string>, unreachable: set<string>, occupied: set<string>)
    returns (r: Result<seq<string>, CloneError>)
    requires |remotes| == |paths|
    ensures r.Ok? <==> NoneFails(remotes, paths, |paths|, unreachable, occupied)
    ensures r.Ok? ==> r.value == paths
    ensures r.Err? ==>
      && r.error.index < |paths|
      && r.error.url == remotes[r.error.index]
      && CloneFails(remotes, paths, r.error.index, unreachable, occupied)
      && NoneFails(remotes, paths, r.error.index, unreachable, occupied)
  {
    var all: seq<string> := [];
    for i := 0 to |paths|
      invariant all == paths[..i]
      invariant NoneFails(remotes, paths, i, unreachable, occupied)
    {
      var remote, path := remotes[i], paths[i];
      if remote in unreachable || path in occupied || path in all {
        assert CloneFails(remotes, paths, i, unreachable, occupied);
        return Err(CloneFailed(i, remote));
      }
      assert paths[..i + 1] == all + [path];
      all := all + [path];
    }
    assert paths[..|paths|] == paths;
    return Ok(all);
  }

  /**
   * The clone loop of `clone_and_display_structure`: each URL is stripped and
   * given its target path, then cloned there, in input order. Deriving every
   * remote and path before the first clone changes nothing, as the derivation
   * has no effects. Either the first clone that raises ends the batch with an
   * error naming that URL, or the result is every target path, in input order,
   * all distinct and none of them occupied beforehand.
   */
  method CloneAll(urls: seq<string>, target: string, unreachable: set<string>, occupied: set<string>)
    returns (r: Result<seq<string>, CloneError>)
    ensures var remotes, paths := Remotes(urls), ClonePaths(target, urls);
      && (r.Ok? <==> NoneFails(remotes, paths, |urls|, unreachable, occupied))
      && (r.Ok? ==> r.value == paths)
      && (r.Ok? ==> forall i, j :: 0 <= i < j < |urls| ==> paths[i] != paths[j])
      && (r.Ok? ==> forall i :: 0 <= i < |urls| ==> paths[i] !in occupied)
      && (r.Err? ==>
            && r.error.index < |urls|
            && r.error.url == Strip(urls[r.error.index])
            && CloneFails(remotes, paths, r.error.index, unreachable, occupied)
            && NoneFails(remotes, paths, r.error.index, unreachable, occupied))
  {
    var remotes := Remotes(urls);
    var paths := ClonePaths(target, urls);
    r := CloneBatch(remotes, paths, unreachable, occupied);
    if r.Ok? {
      ClonePathsDistinct(remotes, paths, unreachable, occupied);
    }
  }

  datatype FetchFailure = BadInput(input: InputError) | CloneFailure(clone: CloneError)

  /**
   * The whole fetch: validate the entries, clone the batch, and on success
   * replace the tree with one root per cloned repository. On any failure no
   * tree is built. `disk` is what the filesystem lists under each cloned path.
   */
  method FetchRepoStructure(urlText: string, folderText: string, cwd: string, extText: string,
                            unreachable: set<string>, occupied: set<string>, disk: map<string, seq<Entry>>)
    returns (r: Result<seq<TreeItem>, FetchFailure>)
    ensures var req := ParseRequest(urlText, folderText, cwd, extText);
      && (req.Err? ==> r == Err(BadInput(req.error)))
      && (req.Ok? ==>
            && (r.Ok? <==> NoneFails(Remotes(req.value.urls), ClonePaths(req.value.target, req.value.urls),
                                     |req.value.urls|, unreachable, occupied))
            && (r.Ok? ==> r.value == BuildRoots(ClonePaths(req.value.target, req.value.urls), req.value.extensions, disk))
            && (r.Err? ==>
                  && r.error.CloneFailure?
                  && r.error.clone.index < |req.value.urls|
                  && r.error.clone.url == Strip(req.value.urls[r.error.clone.index])
                  && CloneFails(Remotes(req.value.urls), ClonePaths(req.value.target, req.value.urls),
                                r.error.clone.index, unreachable, occupied)
                  && NoneFails(Remotes(req.value.urls), ClonePaths(req.value.target, req.value.urls),
                               r.error.clone.index, unreachable, occupied)))
  {
    var req := ParseRequest(urlText, folderText, cwd, extText);
    if req.Err? {
      return Err(BadInput(req.error));
    }
    var cloned := CloneAll(req.value.urls, req.value.target, unreachable, occupied);
    if cloned.Err? {
      return Err(CloneFailure(cloned.error));
    }
    return Ok(BuildRoots(cloned.value, req.value.extensions, disk));
  }
}
