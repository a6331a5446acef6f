/**
 * Target classification (`detect_mode`), the GitHub URL prefix matchers
 * behind it, `parse_github_repo_from_url`, and the range split of `main`.
 *
 * The two URL patterns are used with `re.match`, so they are anchored at the
 * start only; they are hand-rolled here as prefix matchers.  `[^/]+` followed
 * by `/` can only match a maximal run of non-slash characters, so every group
 * is determined without backtracking.
 */
module Target {
  import opened Wrappers
  import opened Text

  /** The six retrieval modes, each with the fields `main` reads from it. */
  datatype Mode =
    | Worktree
    | Unstaged
    | PullRequest(owner: string, repo: string, number: nat)
    | CommitUrl(owner: string, repo: string, sha: string)
    | Range(range: string)
    | CommitSha(sha: string)

  /** What `https?://github\.com/([^/]+)/([^/]+)` matched: the scheme text,
      both groups, and the unmatched rest of the string. */
  datatype RepoMatch = RepoMatch(scheme: string, owner: string, repo: string, rest: string)

  predicate IsScheme(scheme: string)
  {
    scheme == "https://" || scheme == "http://"
  }

  /** A string `[^/]+` can match. */
  predicate IsSegment(s: string)
  {
    s != [] && '/' !in s
  }

  /** The text the pattern describes, nested the way the matcher reads it. */
  function UrlOf(scheme: string, owner: string, repo: string, rest: string): string
  {
    scheme + ("github.com/" + (owner + ("/" + (repo + rest))))
  }

  /** `s` with `prefix` removed, when `s` starts with it. */
  function DropPrefix(s: string, prefix: string): (r: Option<string>)
    ensures r.Some? <==> StartsWith(s, prefix)
    ensures r.Some? ==> s == prefix + r.value
  {
    if StartsWith(s, prefix) then
      assert s == s[..|prefix|] + s[|prefix|..];
      Some(s[|prefix|..])
    else None
  }

  lemma DropPrefixOf(prefix: string, t: string)
    ensures DropPrefix(prefix + t, prefix) == Some(t)
  {
    assert (prefix + t)[..|prefix|] == prefix;
    assert (prefix + t)[|prefix|..] == t;
  }

  /** Index of the first '/' in `s`, or `|s|`. */
  function SegmentEnd(s: string): (k: nat)
    ensures k <= |s| && '/' !in s[..k]
    ensures k < |s| ==> s[k] == '/'
  {
    if s == [] || s[0] == '/' then 0
    else
      var k := SegmentEnd(s[1..]);
      assert s[..k + 1] == [s[0]] + s[1..][..k];
      k + 1
  }

  /** `[^/]*` taken greedily: the segment and what follows it. */
  function SplitSegment(s: string): (r: (string, string))
    ensures s == r.0 + r.1 && '/' !in r.0
    ensures r.1 == [] || r.1[0] == '/'
  {
    var k := SegmentEnd(s);
    assert s == s[..k] + s[k..];
    (s[..k], s[k..])
  }

  lemma SplitSegmentOf(seg: string, rest: string)
    requires '/' !in seg && (rest == [] || rest[0] == '/')
    ensures SplitSegment(seg + rest) == (seg, rest)
  {
    var s := seg + rest;
    assert s[..|seg|] == seg;
    assert |seg| < |s| ==> s[|seg|] == rest[0];
    assert SegmentEnd(s) == |seg|;
    assert s[|seg|..] == rest;
  }

  /** `https?://`: the regex tries the `s` first; either way the scheme is
      decided by the fifth character. */
  function SchemeOf(s: string): (r: Option<string>)
    ensures r.Some? ==> IsScheme(r.value) && StartsWith(s, r.value)
  {
    if StartsWith(s, "https://") then Some("https://")
    else if StartsWith(s, "http://") then Some("http://")
    else None
  }

  lemma SchemeOfUrl(scheme: string, t: string)
    requires IsScheme(scheme)
    ensures SchemeOf(scheme + t) == Some(scheme)
  {
    var s := scheme + t;
    assert s[..|scheme|] == scheme;
    if scheme == "http://" {
      assert s[4] == ':';
    }
  }

  /** `re.match(r"https?://github\.com/([^/]+)/([^/]+)", s)`. */
  function MatchRepoUrl(s: string): (r: Option<RepoMatch>)
    ensures r.Some? ==>
      IsScheme(r.value.scheme) && IsSegment(r.value.owner) && IsSegment(r.value.repo) &&
      (r.value.rest == [] || r.value.rest[0] == '/') &&
      s == UrlOf(r.value.scheme, r.value.owner, r.value.repo, r.value.rest)
  {
    match SchemeOf(s)
    case None => None
    case Some(scheme) =>
      assert s == scheme + s[|scheme|..];
      match DropPrefix(s[|scheme|..], "github.com/")
      case None => None
      case Some(u) =>
        var (owner, afterOwner) := SplitSegment(u);
        if owner == [] then None
        else
          match DropPrefix(afterOwner, "/")
          case None => None
          case Some(v) =>
            var (repo, rest) := SplitSegment(v);
            if repo == [] then None
            else Some(RepoMatch(scheme, owner, repo, rest))
  }

  /** Every URL of the shape the pattern describes is matched, with its
      groups recovered exactly. */
  lemma MatchRepoUrlComplete(scheme: string, owner: string, repo: string, rest: string)
    requires IsScheme(scheme) && IsSegment(owner) && IsSegment(repo)
    requires rest == [] || rest[0] == '/'
    ensures MatchRepoUrl(UrlOf(scheme, owner, repo, rest)) == Some(RepoMatch(scheme, owner, repo, rest))
  {
    var v := repo + rest;
    var afterOwner := "/" + v;
    var u := owner + afterOwner;
    var t := "github.com/" + u;
    var s := scheme + t;
    assert s == UrlOf(scheme, owner, repo, rest);
    SchemeOfUrl(scheme, t);
    assert s[|scheme|..] == t;
    DropPrefixOf("github.com/", u);
    SplitSegmentOf(owner, afterOwner);
    DropPrefixOf("/", v);
    SplitSegmentOf(repo, rest);
  }

  // ---------------------------------------------------------------------
  // Characters the two URL patterns capture after the repository

  predicate IsHexDigit(c: char)
  {
    ('0' <= c <= '9') || ('a' <= c <= 'f') || ('A' <= c <= 'F')
  }

  predicate AllHex(s: string)
  {
    forall i :: 0 <= i < |s| ==> IsHexDigit(s[i])
  }

  /** Length of the longest prefix of ASCII digits (`\d+`, greedy). */
  function DigitRun(s: string): (k: nat)
    ensures k <= |s| && AllDigits(s[..k])
    ensures k < |s| ==> !IsAsciiDigit(s[k])
  {
    if s == [] || !IsAsciiDigit(s[0]) then 0
    else
      var k := DigitRun(s[1..]);
      assert s[..k + 1] == [s[0]] + s[1..][..k];
      k + 1
  }

  /** Length of the longest prefix of hex digits. */
  function HexRun(s: string): (k: nat)
    ensures k <= |s| && AllHex(s[..k])
    ensures k < |s| ==> !IsHexDigit(s[k])
  {
    if s == [] || !IsHexDigit(s[0]) then 0
    else
      var k := HexRun(s[1..]);
      assert s[..k + 1] == [s[0]] + s[1..][..k];
      k + 1
  }

  /** `\d+` taken greedily: the digits and what follows them. */
  function SplitDigits(s: string): (r: (string, string))
    ensures s == r.0 + r.1 && AllDigits(r.0)
    ensures r.1 == [] || !IsAsciiDigit(r.1[0])
  {
    var k := DigitRun(s);
    assert s == s[..k] + s[k..];
    (s[..k], s[k..])
  }

  lemma SplitDigitsOf(ds: string, rest: string)
    requires AllDigits(ds) && (rest == [] || !IsAsciiDigit(rest[0]))
    ensures SplitDigits(ds + rest) == (ds, rest)
  {
    var s := ds + rest;
    assert s[..|ds|] == ds;
    assert |ds| < |s| ==> s[|ds|] == rest[0];
    assert DigitRun(s) == |ds|;
    assert s[|ds|..] == rest;
  }

  /** `[0-9a-fA-F]{0,40}` taken greedily: at most forty hex digits, and what
      follows them. */
  function SplitHex(s: string): (r: (string, string))
    ensures s == r.0 + r.1 && AllHex(r.0) && |r.0| <= 40
    ensures |r.0| == 40 || r.1 == [] || !IsHexDigit(r.1[0])
  {
    var h := HexRun(s);
    var n := if h < 40 then h else 40;
    assert forall i :: 0 <= i < n ==> s[..n][i] == s[..h][i];
    assert s == s[..n] + s[n..];
    (s[..n], s[n..])
  }

  lemma SplitHexOf(sha: string, rest: string)
    requires AllHex(sha) && |sha| <= 40 && (|sha| == 40 || rest == [] || !IsHexDigit(rest[0]))
    ensures SplitHex(sha + rest) == (sha, rest)
  {
    var s := sha + rest;
    assert s[..|sha|] == sha;
    assert |sha| < |s| ==> s[|sha|] == rest[0];
    assert forall i :: 0 <= i < |sha| ==> IsHexDigit(s[i]);
    assert s[|sha|..] == rest;
  }

  /** `re.match(r"https?://github\.com/([^/]+)/([^/]+)/pull/(\d+)", s)`,
      giving the two groups and `int` of the third. */
  function MatchPullUrl(s: string): (r: Option<Mode>)
    ensures r.Some? ==> (r.value.PullRequest? && MatchRepoUrl(s).Some? &&
      r.value.owner == MatchRepoUrl(s).value.owner && r.value.repo == MatchRepoUrl(s).value.repo)
  {
    match MatchRepoUrl(s)
    case None => None
    case Some(m) =>
      match DropPrefix(m.rest, "/pull/")
      case None => None
      case Some(tail) =>
        var (digits, _) := SplitDigits(tail);
        if digits == [] then None
        else Some(PullRequest(m.owner, m.repo, DecimalValue(digits)))
  }

  /** `re.match(r"https?://github\.com/([^/]+)/([^/]+)/commit/([0-9a-fA-F]{7,40})", s)`:
      the greedy `{7,40}` takes at most forty of the hex digits that follow. */
  function MatchCommitUrl(s: string): (r: Option<Mode>)
    ensures r.Some? ==> (r.value.CommitUrl? && MatchRepoUrl(s).Some? && IsShaLike(r.value.sha) &&
      r.value.owner == MatchRepoUrl(s).value.owner && r.value.repo == MatchRepoUrl(s).value.repo)
  {
    match MatchRepoUrl(s)
    case None => None
    case Some(m) =>
      match DropPrefix(m.rest, "/commit/")
      case None => None
      case Some(tail) =>
        var (sha, _) := SplitHex(tail);
        if |sha| < 7 then None
        else Some(CommitUrl(m.owner, m.repo, sha))
  }

  /** Hex digits hold no dot, so no `..` either. */
  lemma HexHasNoRange(s: string)
    ensures AllHex(s) ==> !Contains(s, "..")
  {
    if AllHex(s) {
      forall i | 0 <= i <= |s| ensures !OccursAt(s, "..", i) {
        assert i < |s| ==> IsHexDigit(s[i]);
      }
    }
  }

  /** `re.fullmatch(r"[0-9a-fA-F]{7,40}", s)`: such a string never holds `..`. */
  predicate IsShaLike(s: string)
    ensures IsShaLike(s) ==> !Contains(s, "..")
  {
    HexHasNoRange(s);
    7 <= |s| <= 40 && AllHex(s)
  }

  /** `detect_mode`: an ordered, total classifier.  The hex test and the
      final fallback give the same mode, as in the source. */
  function DetectMode(target: string): (r: Mode)
    ensures r.Worktree? <==> target == "WORKTREE"
    ensures r.Unstaged? <==> target == "UNSTAGED"
    ensures r.PullRequest? ==> MatchPullUrl(target) == Some(r)
    ensures r.CommitUrl? ==> MatchPullUrl(target).None? && MatchCommitUrl(target) == Some(r)
    ensures r.Range? ==> (r.range == target && Contains(target, "..") &&
      MatchPullUrl(target).None? && MatchCommitUrl(target).None?)
    ensures r.CommitSha? ==> r.sha == target && !Contains(target, "..")
  {
    if target == "WORKTREE" then Worktree
    else if target == "UNSTAGED" then Unstaged
    else if MatchPullUrl(target).Some? then MatchPullUrl(target).value
    else if MatchCommitUrl(target).Some? then MatchCommitUrl(target).value
    else if Contains(target, "..") then Range(target)
    else if IsShaLike(target) then CommitSha(target)
    else CommitSha(target)
  }

  /** The shape of a pull-request URL, trailing text included: the digit run
      is maximal, so `rest` does not start with a digit. */
  predicate PullUrlOf(t: string, scheme: string, owner: string, repo: string, digits: string, rest: string)
  {
    IsScheme(scheme) && IsSegment(owner) && IsSegment(repo) &&
    digits != [] && AllDigits(digits) && (rest == [] || !IsAsciiDigit(rest[0])) &&
    t == UrlOf(scheme, owner, repo, "/pull/" + (digits + rest))
  }

  /** The shape of a commit URL: `sha` holds 7 to 40 hex digits and is the
      longest such prefix unless it already holds forty. */
  predicate CommitUrlOf(t: string, scheme: string, owner: string, repo: string, sha: string, rest: string)
  {
    IsScheme(scheme) && IsSegment(owner) && IsSegment(repo) &&
    IsShaLike(sha) && (|sha| == 40 || rest == [] || !IsHexDigit(rest[0])) &&
    t == UrlOf(scheme, owner, repo, "/commit/" + (sha + rest))
  }

  /** A URL is never one of the two literal targets. */
  lemma UrlIsNotLiteral(scheme: string, owner: string, repo: string, rest: string)
    requires IsScheme(scheme)
    ensures UrlOf(scheme, owner, repo, rest) != "WORKTREE"
    ensures UrlOf(scheme, owner, repo, rest) != "UNSTAGED"
  {
    assert UrlOf(scheme, owner, repo, rest)[0] == scheme[0] == 'h';
  }

  /** A pull-request URL is classified `pr` with owner, repo and `int` of the
      number, whatever follows the number. */
  lemma PullUrlDetected(t: string, scheme: string, owner: string, repo: string, digits: string, rest: string)
    requires PullUrlOf(t, scheme, owner, repo, digits, rest)
    ensures DetectMode(t) == PullRequest(owner, repo, DecimalValue(digits))
  {
    var tail := "/pull/" + (digits + rest);
    MatchRepoUrlComplete(scheme, owner, repo, tail);
    DropPrefixOf("/pull/", digits + rest);
    SplitDigitsOf(digits, rest);
    UrlIsNotLiteral(scheme, owner, repo, tail);
  }

  /** Conversely, every `pr` classification comes from such a URL. */
  lemma PullUrlSound(t: string, owner: string, repo: string, number: nat)
    requires DetectMode(t) == PullRequest(owner, repo, number)
    ensures exists scheme, digits, rest ::
      PullUrlOf(t, scheme, owner, repo, digits, rest) && DecimalValue(digits) == number
  {
    var scheme, digits, rest := PullMatchParts(t, owner, repo, number);
  }

  lemma PullMatchParts(t: string, owner: string, repo: string, number: nat)
      returns (scheme: string, digits: string, rest: string)
    requires MatchPullUrl(t) == Some(PullRequest(owner, repo, number))
    ensures PullUrlOf(t, scheme, owner, repo, digits, rest) && DecimalValue(digits) == number
  {
    var m := MatchRepoUrl(t).value;
    var tail := DropPrefix(m.rest, "/pull/").value;
    scheme := m.scheme;
    digits, rest := SplitDigits(tail).0, SplitDigits(tail).1;
  }

  /** A commit URL is classified `commit_url` with the captured hex digits. */
  lemma CommitUrlDetected(t: string, scheme: string, owner: string, repo: string, sha: string, rest: string)
    requires CommitUrlOf(t, scheme, owner, repo, sha, rest)
    ensures DetectMode(t) == CommitUrl(owner, repo, sha)
  {
    CommitUrlMatched(t, scheme, owner, repo, sha, rest);
    UrlIsNotLiteral(scheme, owner, repo, "/commit/" + (sha + rest));
  }

  lemma CommitUrlMatched(t: string, scheme: string, owner: string, repo: string, sha: string, rest: string)
    requires CommitUrlOf(t, scheme, owner, repo, sha, rest)
    ensures MatchPullUrl(t).None? && MatchCommitUrl(t) == Some(CommitUrl(owner, repo, sha))
  {
    var tail := "/commit/" + (sha + rest);
    MatchRepoUrlComplete(scheme, owner, repo, tail);
    NotPullTail(sha + rest);
    DropPrefixOf("/commit/", sha + rest);
    SplitHexOf(sha, rest);
  }

  /** Conversely, every `commit_url` classification comes from such a URL. */
  lemma CommitUrlSound(t: string, owner: string, repo: string, sha: string)
    requires DetectMode(t) == CommitUrl(owner, repo, sha)
    ensures exists scheme, rest :: CommitUrlOf(t, scheme, owner, repo, sha, rest)
  {
    var scheme, rest := CommitMatchParts(t, owner, repo, sha);
  }

  lemma CommitMatchParts(t: string, owner: string, repo: string, sha: string)
      returns (scheme: string, rest: string)
    requires MatchCommitUrl(t) == Some(CommitUrl(owner, repo, sha))
    ensures CommitUrlOf(t, scheme, owner, repo, sha, rest)
  {
    var m := MatchRepoUrl(t).value;
    var tail := DropPrefix(m.rest, "/commit/").value;
    scheme := m.scheme;
    rest := SplitHex(tail).1;
  }

  lemma NotPullTail(x: string)
    ensures DropPrefix("/commit/" + x, "/pull/").None?
  {
    assert ("/commit/" + x)[1] == 'c';
  }

  /** A string holding `..` that neither URL pattern matches is a range. */
  lemma RangeDetected(t: string)
    requires Contains(t, "..") && MatchPullUrl(t).None? && MatchCommitUrl(t).None?
    ensures DetectMode(t) == Range(t)
  {
    var i :| 0 <= i <= |t| && OccursAt(t, "..", i);
    assert t[i] == '.';
    assert t != "WORKTREE" && t != "UNSTAGED";
  }

  /** A 7 to 40 character hex string is a commit SHA, itself as `sha`. */
  lemma HexShaDetected(t: string)
    requires IsShaLike(t)
    ensures DetectMode(t) == CommitSha(t)
  {
    assert !IsHexDigit('W') && !IsHexDigit('U') && !IsHexDigit('h');
    assert t[0] != 'W' && t[0] != 'U' && t[0] != 'h';
    assert SchemeOf(t).None?;
  }

  /** Every other string falls through to `commit_sha`; nothing is an error. */
  lemma FallbackIsCommitSha(t: string)
    requires t != "WORKTREE" && t != "UNSTAGED" && !Contains(t, "..")
    requires MatchPullUrl(t).None? && MatchCommitUrl(t).None?
    ensures DetectMode(t) == CommitSha(t)
  {
  }

  // ---------------------------------------------------------------------
  // parse_github_repo_from_url

  /** `re.sub(r"\.git$", "", repo)`: `$` also matches just before a final
      newline, so a `.git` there is removed too. */
  function StripGitSuffix(repo: string): (r: string)
    ensures EndsWith(repo, ".git") ==> r + ".git" == repo
    ensures !EndsWith(repo, ".git") && EndsWith(repo, ".git\n") ==> r != [] && r[..|r| - 1] + ".git\n" == repo && r[|r| - 1] == '\n'
    ensures !EndsWith(repo, ".git") && !EndsWith(repo, ".git\n") ==> r == repo
  {
    if EndsWith(repo, ".git") then repo[..|repo| - 4]
    else if EndsWith(repo, ".git\n") then repo[..|repo| - 5] + "\n"
    else repo
  }

  lemma StripGitSuffixRemoves(base: string)
    ensures StripGitSuffix(base + ".git") == base
    ensures StripGitSuffix(base + ".git\n") == base + "\n"
  {
    var s := base + ".git\n";
    assert s[|s| - 4..] != ".git" by { assert s[|s| - 1] == '\n'; }
    assert s[|s| - 5..] == ".git\n";
    assert s[..|s| - 5] == base;
    var s4 := base + ".git";
    assert s4[|s4| - 4..] == ".git" && s4[..|s4| - 4] == base;
  }

  lemma StripGitSuffixKeeps(repo: string)
    requires !EndsWith(repo, ".git") && !EndsWith(repo, ".git\n")
    ensures StripGitSuffix(repo) == repo
  {
  }

  /** `parse_github_repo_from_url`: owner and repository, `.git` removed, or
      the `ValueError` message for anything else. */
  function ParseGithubRepoFromUrl(url: string): (r: Result<(string, string), string>)
    ensures r.Ok? <==> MatchRepoUrl(url).Some?
    ensures r.Err? ==> r.error == "Not a GitHub URL: " + url
    ensures r.Ok? ==> r.value.0 == MatchRepoUrl(url).value.owner && IsSegment(r.value.0)
    ensures r.Ok? ==> r.value.1 == StripGitSuffix(MatchRepoUrl(url).value.repo)
  {
    match MatchRepoUrl(url)
    case None => Err("Not a GitHub URL: " + url)
    case Some(m) => Ok((m.owner, StripGitSuffix(m.repo)))
  }

  /** A clone URL ending in `.git` gives back the bare repository name. */
  lemma ParseCloneUrl(scheme: string, owner: string, repo: string, rest: string)
    requires IsScheme(scheme) && IsSegment(owner) && '/' !in repo
    requires rest == [] || rest[0] == '/'
    ensures ParseGithubRepoFromUrl(UrlOf(scheme, owner, repo + ".git", rest)) == Ok((owner, repo))
  {
    assert '/' !in repo + ".git";
    MatchRepoUrlComplete(scheme, owner, repo + ".git", rest);
    StripGitSuffixRemoves(repo);
  }

  // ---------------------------------------------------------------------
  // The range split in `main`

  /** How a range reaches `git diff`: whole, or as its two endpoints. */
  datatype RangeSpec = ThreeDot(range: string) | TwoDot(left: string, right: string)

  /** A range holding `...` is passed through whole; otherwise it is split by
      `rng.split("..", 1)` at the first `..`. */
  function SplitRange(rng: string): (r: RangeSpec)
    requires Contains(rng, "..")
    ensures r.ThreeDot? <==> Contains(rng, "...")
    ensures r.ThreeDot? ==> r.range == rng
    ensures r.TwoDot? ==> r.left + ".." + r.right == rng
    ensures r.TwoDot? ==> !Contains(r.left, "..")
    ensures r.TwoDot? ==> (r.left == [] || r.left[|r.left| - 1] != '.') &&
                          (r.right == [] || r.right[0] != '.')
  {
    if Contains(rng, "...") then ThreeDot(rng)
    else
      var k := FindFirst(rng, "..");
      CutRebuilds(rng, k);
      LeftHasNoCut(rng, k);
      NoDotAroundCut(rng, k);
      TwoDot(rng[..k], rng[k + 2..])
  }

  lemma CutRebuilds(rng: string, k: nat)
    requires OccursAt(rng, "..", k)
    ensures rng[..k] + ".." + rng[k + 2..] == rng
  {
    assert rng == rng[..k] + rng[k..k + 2] + rng[k + 2..];
  }

  /** Before the first `..` there is no `..`. */
  lemma LeftHasNoCut(rng: string, k: nat)
    requires OccursAt(rng, "..", k)
    requires forall j :: 0 <= j < k ==> !OccursAt(rng, "..", j)
    ensures !Contains(rng[..k], "..")
  {
    var left := rng[..k];
    forall j | 0 <= j <= |left| ensures !OccursAt(left, "..", j) {
      if j + 2 <= |left| {
        assert left[j..j + 2] == rng[j..j + 2];
        assert !OccursAt(rng, "..", j);
      }
    }
  }

  /** Without `...`, no dot touches a `..`. */
  lemma NoDotAroundCut(rng: string, k: nat)
    requires OccursAt(rng, "..", k) && !Contains(rng, "...")
    ensures k == 0 || rng[k - 1] != '.'
    ensures k + 2 == |rng| || rng[k + 2] != '.'
  {
    if k > 0 {
      assert !OccursAt(rng, "...", k - 1);
      assert rng[k - 1..k + 2] == [rng[k - 1]] + rng[k..k + 2];
    }
    if k + 2 < |rng| {
      assert !OccursAt(rng, "...", k);
      assert rng[k..k + 3] == rng[k..k + 2] + [rng[k + 2]];
    }
  }
}
