/** `app/utils/git_utils.py`: the later URL splitter, which reads owner, repository and an
    optional branch from the URL's path, and a stricter validity test. */
module AppGitUtils {
  import opened Wrappers
  import opened Strings
  import GitUtils

  const DefaultBranch := "main"
  const TreeSegment := "tree"

  datatype Repository = Repository(owner: string, repo: string, branch: string)

  /** `path.strip("/").split("/")` */
  function Segments(path: string): (r: seq<string>)
    ensures |r| >= 1
  {
    Split(Strip(path, '/'), '/')
  }

  /** `parse_git_url`, given `path`, the path component of `url` as `urlparse` reads it. */
  function ParseGitUrl(url: string, path: string): (r: Result<Repository>)
    ensures r.Err? <==> !Contains(url, GitUtils.GitHubHost) || |Segments(path)| < 2
    ensures !Contains(url, GitUtils.GitHubHost) ==> r == Err("Invalid GitHub URL")
    ensures r.Ok? ==>
      var parts := Segments(path);
      r.value.owner == parts[0] && GitUtils.DropGit(parts[1]) == r.value.repo
      && (r.value.branch == if |parts| > 3 && parts[2] == TreeSegment then parts[3] else DefaultBranch)
  {
    if !Contains(url, GitUtils.GitHubHost) then Err("Invalid GitHub URL")
    else
      var parts := Segments(path);
      if |parts| < 2 then Err("URL does not contain enough parts to identify the repo")
      else
        var branch := if |parts| > 3 && parts[2] == TreeSegment then parts[3] else DefaultBranch;
        Ok(Repository(parts[0], GitUtils.DropGit(parts[1]), branch))
  }

  /** `is_valid_git_url`: the prefix, five parts, and a non-empty owner and repository. */
  predicate IsValidGitUrl(url: string) {
    var parts := Split(url, '/');
    StartsWith(url, GitUtils.GitHubPrefix) && |parts| >= 5 && parts[3] != "" && parts[4] != ""
  }

  /** Behind the prefix, validity asks for a non-empty owner followed by `/` and a
      non-empty repository part. */
  lemma ValidIff(rest: string)
    ensures IsValidGitUrl(GitUtils.GitHubPrefix + rest) <==>
      var parts := Split(rest, '/');
      |parts| >= 2 && parts[0] != "" && parts[1] != ""
  {
    var p := Split(rest, '/');
    var parts := Split(GitUtils.GitHubPrefix + rest, '/');
    GitUtils.PrefixSplit(rest);
    assert |parts| == 3 + |p|;
    assert |parts| >= 5 ==> parts[3] == p[0] && parts[4] == p[1];
    assert StartsWith(GitUtils.GitHubPrefix + rest, GitUtils.GitHubPrefix);
  }

  /** A valid URL is also valid for the older test. */
  lemma ValidIsValid(url: string)
    requires IsValidGitUrl(url)
    ensures GitUtils.IsValidGitUrl(url)
  {
  }

  /** A valid URL names the host, so parsing cannot fail on the first check. */
  lemma ValidNamesHost(url: string)
    requires IsValidGitUrl(url)
    ensures Contains(url, GitUtils.GitHubHost)
  {
    var rest := url[|GitUtils.GitHubPrefix|..];
    assert url == GitUtils.GitHubPrefix + rest;
    GitUtils.PrefixContains(rest);
  }

  /** A path with no inner `/` (such as the empty path, which splits to `[""]`) has too few
      segments; parsing fails. */
  lemma ShortPathFails(url: string, path: string)
    requires '/' !in Strip(path, '/')
    ensures ParseGitUrl(url, path).Err?
  {
    SplitSingle(Strip(path, '/'), '/');
  }

  /** The empty path and the root path both fail. */
  lemma EmptyPathFails(url: string)
    ensures ParseGitUrl(url, "").Err?
    ensures ParseGitUrl(url, "/").Err?
  {
    ShortPathFails(url, "");
    assert LStrip("/", '/') == LStrip("", '/');
    ShortPathFails(url, "/");
  }

  /** Segments joined by `/`, with or without a leading `/`, split back into the segments
      when the first and the last are non-empty. */
  lemma {:induction false} SegmentsJoin(parts: seq<string>)
    requires |parts| >= 1 && parts[0] != "" && parts[|parts| - 1] != ""
    requires forall i :: 0 <= i < |parts| ==> '/' !in parts[i]
    ensures Segments(Join(parts, '/')) == parts
    ensures Segments("/" + Join(parts, '/')) == parts
  {
    var x := Join(parts, '/');
    JoinEnds(parts, '/');
    assert x[0] == parts[0][0] by {
      if |parts| > 1 {
        assert x == parts[0] + ['/'] + Join(parts[1..], '/');
      }
    }
    var last := parts[|parts| - 1];
    assert x[|x| - 1] == x[|x| - |last|..][|last| - 1];
    assert "/" + x == ['/'] + x;
    StripLeading(x, '/');
    SplitJoin(parts, '/');
  }

  /** `/<owner>/<repo>` gives the owner, the repository without `.git`, and branch `main`. */
  lemma ParseRoundTrip(url: string, owner: string, repo: string)
    requires Contains(url, GitUtils.GitHubHost)
    requires owner != "" && repo != "" && '/' !in owner && '/' !in repo
    ensures ParseGitUrl(url, "/" + owner + "/" + repo) == Ok(Repository(owner, GitUtils.DropGit(repo), DefaultBranch))
  {
    var parts := [owner, repo];
    assert Join(parts, '/') == owner + "/" + repo by {
      assert parts[1..] == [repo];
    }
    assert "/" + owner + "/" + repo == "/" + Join(parts, '/');
    SegmentsJoin(parts);
  }

  /** `/<owner>/<repo>/tree/<branch>` also reads the branch. */
  lemma ParseBranch(url: string, owner: string, repo: string, branch: string)
    requires Contains(url, GitUtils.GitHubHost)
    requires owner != "" && branch != "" && '/' !in owner && '/' !in repo && '/' !in branch
    ensures ParseGitUrl(url, "/" + owner + "/" + repo + "/" + TreeSegment + "/" + branch)
      == Ok(Repository(owner, GitUtils.DropGit(repo), branch))
  {
    var parts := [owner, repo, TreeSegment, branch];
    assert Join(parts, '/') == owner + "/" + repo + "/" + TreeSegment + "/" + branch by {
      assert parts[1..] == [repo, TreeSegment, branch];
      assert [repo, TreeSegment, branch][1..] == [TreeSegment, branch];
      assert [TreeSegment, branch][1..] == [branch];
      assert Join([TreeSegment, branch], '/') == TreeSegment + "/" + branch;
      assert Join([repo, TreeSegment, branch], '/') == repo + "/" + (TreeSegment + "/" + branch);
    }
    assert "/" + owner + "/" + repo + "/" + TreeSegment + "/" + branch == "/" + Join(parts, '/');
    SegmentsJoin(parts);
  }

  /** A `tree` segment with nothing after it leaves the branch at `main`. */
  lemma TreeWithoutBranch(url: string, owner: string, repo: string)
    requires Contains(url, GitUtils.GitHubHost)
    requires owner != "" && '/' !in owner && '/' !in repo
    ensures ParseGitUrl(url, "/" + owner + "/" + repo + "/" + TreeSegment)
      == Ok(Repository(owner, GitUtils.DropGit(repo), DefaultBranch))
  {
    var parts := [owner, repo, TreeSegment];
    assert Join(parts, '/') == owner + "/" + repo + "/" + TreeSegment by {
      assert parts[1..] == [repo, TreeSegment];
      assert [repo, TreeSegment][1..] == [TreeSegment];
      assert Join([repo, TreeSegment], '/') == repo + "/" + TreeSegment;
    }
    assert "/" + owner + "/" + repo + "/" + TreeSegment == "/" + Join(parts, '/');
    SegmentsJoin(parts);
  }
}
