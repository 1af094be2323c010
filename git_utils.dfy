/** `src/utils/git_utils.py`: splitting a GitHub repository URL into owner and repository
    name, and the validity test that goes with it. */
module GitUtils {
  import opened Wrappers
  import opened Strings

  const GitHubHost := "github.com"
  const GitHubPrefix := "https://github.com/"
  const GitSuffix := ".git"

  datatype Repository = Repository(owner: string, repo: string)

  /** `name[:-4]` when `name` ends with `.git`: exactly one suffix is dropped. */
  function DropGit(name: string): (r: string)
    ensures EndsWith(name, GitSuffix) ==> r + GitSuffix == name
    ensures !EndsWith(name, GitSuffix) ==> r == name
  {
    if EndsWith(name, GitSuffix) then name[..|name| - |GitSuffix|] else name
  }

  /** `parse_git_url`: the owner and repository are the last two `/`-separated parts. */
  function ParseGitUrl(url: string): (r: Result<Repository>)
    ensures r.Err? <==> !Contains(url, GitHubHost) || |Split(url, '/')| < 5
    ensures !Contains(url, GitHubHost) ==> r == Err("Invalid GitHub URL")
    ensures r.Ok? ==>
      var parts := Split(url, '/');
      r.value.owner == parts[|parts| - 2] && DropGit(parts[|parts| - 1]) == r.value.repo
  {
    if !Contains(url, GitHubHost) then Err("Invalid GitHub URL")
    else
      var parts := Split(url, '/');
      if |parts| < 5 then Err("URL does not contain enough parts to identify the repo")
      else Ok(Repository(parts[|parts| - 2], DropGit(parts[|parts| - 1])))
  }

  /** `is_valid_git_url` */
  predicate IsValidGitUrl(url: string) {
    StartsWith(url, GitHubPrefix) && |Split(url, '/')| >= 5
  }

  /** The prefix contributes the parts `https:`, `` and `github.com`. */
  lemma PrefixSplit(rest: string)
    ensures Split(GitHubPrefix + rest, '/') == ["https:", "", GitHubHost] + Split(rest, '/')
  {
    assert GitHubPrefix + rest == "https:" + ['/'] + ("" + ['/'] + (GitHubHost + ['/'] + rest));
    SplitThree("https:", "", GitHubHost, rest);
  }

  lemma SplitThree(a: string, b: string, c: string, rest: string)
    requires '/' !in a && '/' !in b && '/' !in c
    ensures Split(a + ['/'] + (b + ['/'] + (c + ['/'] + rest)), '/') == [a, b, c] + Split(rest, '/')
  {
    SplitCons(c, '/', rest);
    SplitCons(b, '/', c + ['/'] + rest);
    SplitCons(a, '/', b + ['/'] + (c + ['/'] + rest));
    var tail := Split(rest, '/');
    assert [a] + ([b] + ([c] + tail)) == [a, b, c] + tail;
  }

  /** A URL with the prefix names the host. */
  lemma PrefixContains(rest: string)
    ensures Contains(GitHubPrefix + rest, GitHubHost)
  {
    var s := GitHubPrefix + rest;
    assert s[8..][..|GitHubHost|] == GitHubHost;
    ContainsAt(s, GitHubHost, 8);
  }

  /** Behind the prefix, validity asks only for one more `/`. */
  lemma ValidIff(rest: string)
    ensures IsValidGitUrl(GitHubPrefix + rest) <==> '/' in rest
  {
    PrefixSplit(rest);
    SplitSingle(rest, '/');
    assert StartsWith(GitHubPrefix + rest, GitHubPrefix);
  }

  /** A valid URL parses: the prefix supplies the host, and validity the part count. */
  lemma ValidParses(url: string)
    requires IsValidGitUrl(url)
    ensures ParseGitUrl(url).Ok?
  {
    var rest := url[|GitHubPrefix|..];
    assert url == GitHubPrefix + rest;
    PrefixContains(rest);
  }

  /** `https://github.com/<owner>/<repo>` gives back the owner and the repository, without
      its `.git`. */
  lemma ParseRoundTrip(owner: string, repo: string)
    requires '/' !in owner && '/' !in repo
    ensures ParseGitUrl(GitHubPrefix + owner + "/" + repo) == Ok(Repository(owner, DropGit(repo)))
  {
    var rest := owner + "/" + repo;
    assert GitHubPrefix + owner + "/" + repo == GitHubPrefix + rest;
    assert rest == owner + ['/'] + repo;
    PrefixSplit(rest);
    PrefixContains(rest);
    SplitCons(owner, '/', repo);
    SplitSingle(repo, '/');
  }

  /** With a trailing `/` the owner is the repository's name and the repository is empty. */
  lemma TrailingSlash(owner: string, repo: string)
    requires '/' !in owner && '/' !in repo
    ensures ParseGitUrl(GitHubPrefix + owner + "/" + repo + "/") == Ok(Repository(repo, ""))
  {
    var rest := owner + "/" + repo + "/";
    assert GitHubPrefix + owner + "/" + repo + "/" == GitHubPrefix + rest;
    assert rest == owner + ['/'] + (repo + ['/'] + "");
    PrefixSplit(rest);
    PrefixContains(rest);
    SplitCons(owner, '/', repo + ['/'] + "");
    SplitCons(repo, '/', "");
    SplitSingle("", '/');
  }

  /** Only one `.git` is removed. */
  lemma DropGitOnce(name: string)
    ensures DropGit(name + GitSuffix + GitSuffix) == name + GitSuffix
    ensures !EndsWith(name, GitSuffix) ==> DropGit(name + GitSuffix) == name && DropGit(name) == name
  {
    var s := name + GitSuffix + GitSuffix;
    assert s[|s| - |GitSuffix|..] == GitSuffix;
    assert s[..|s| - |GitSuffix|] == name + GitSuffix;
    var t := name + GitSuffix;
    assert t[|t| - |GitSuffix|..] == GitSuffix;
    assert t[..|t| - |GitSuffix|] == name;
  }
}
