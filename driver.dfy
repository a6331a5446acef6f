/**
 * The pure decisions `main` makes around the git and HTTP calls: the target
 * label and default output file of each mode, the truncation gate, the
 * parent picked from a `rev-list --parents` line, the shortstat fallback,
 * and the commit list handed to the report only when it is not blank.
 * What git and GitHub answer is passed in as text.
 */
module Driver {
  import opened Wrappers
  import opened Text
  import opened Target
  import opened Diff
  import opened Report

  const GithubHost := "github.com"

  // ---------------------------------------------------------------------
  // Target label

  /** The `Target:` line of the report for each mode: URLs are rebuilt with
      `https://`, local targets are shown as given. */
  function TargetLabel(mode: Mode): (r: string)
    ensures mode.PullRequest? ==> r == UrlOf("https://", mode.owner, mode.repo, "/pull/" + NatToString(mode.number))
    ensures mode.CommitUrl? ==> r == UrlOf("https://", mode.owner, mode.repo, "/commit/" + mode.sha)
    ensures mode.CommitSha? ==> r == mode.sha
    ensures mode.Range? ==> r == mode.range
    ensures mode.Worktree? ==> r == "WORKTREE"
    ensures mode.Unstaged? ==> r == "UNSTAGED"
  {
    match mode
    case PullRequest(owner, repo, number) =>
      "https://" + (GithubHost + "/" + (owner + ("/" + (repo + ("/pull/" + NatToString(number))))))
    case CommitUrl(owner, repo, sha) =>
      "https://" + (GithubHost + "/" + (owner + ("/" + (repo + ("/commit/" + sha)))))
    case CommitSha(sha) => sha
    case Range(range) => range
    case Worktree => "WORKTREE"
    case Unstaged => "UNSTAGED"
  }

  lemma PullLabelDetected(owner: string, repo: string, number: nat)
    requires IsSegment(owner) && IsSegment(repo)
    ensures DetectMode(TargetLabel(PullRequest(owner, repo, number))) == PullRequest(owner, repo, number)
  {
    var digits := NatToString(number);
    var t := TargetLabel(PullRequest(owner, repo, number));
    assert digits + "" == digits;
    assert t == UrlOf("https://", owner, repo, "/pull/" + (digits + ""));
    assert PullUrlOf(t, "https://", owner, repo, digits, "");
    PullUrlDetected(t, "https://", owner, repo, digits, "");
    DecimalValueOfNatToString(number);
  }

  lemma CommitLabelDetected(owner: string, repo: string, sha: string)
    requires IsSegment(owner) && IsSegment(repo) && IsShaLike(sha)
    ensures DetectMode(TargetLabel(CommitUrl(owner, repo, sha))) == CommitUrl(owner, repo, sha)
  {
    var t := TargetLabel(CommitUrl(owner, repo, sha));
    assert sha + "" == sha;
    assert t == UrlOf("https://", owner, repo, "/commit/" + (sha + ""));
    assert CommitUrlOf(t, "https://", owner, repo, sha, "");
    CommitUrlDetected(t, "https://", owner, repo, sha, "");
  }

  /** The label printed for a target is classified exactly as the target
      was: a URL given with `http://` or with trailing path segments is
      shown in a canonical form that still means the same pull request or
      commit, and every other target is shown as it was given. */
  lemma LabelKeepsMode(target: string)
    ensures DetectMode(TargetLabel(DetectMode(target))) == DetectMode(target)
  {
    var m := DetectMode(target);
    match m
    case PullRequest(owner, repo, number) =>
      PullLabelDetected(owner, repo, number);
    case CommitUrl(owner, repo, sha) =>
      CommitLabelDetected(owner, repo, sha);
    case CommitSha(sha) =>
    case Range(range) =>
    case Worktree =>
    case Unstaged =>
  }

  // ---------------------------------------------------------------------
  // Output path

  /** The output path when `-o` is not given.  `resolved` is what
      `git rev-parse --verify <sha>` printed, or `None` when it failed. */
  function DefaultOutputPath(mode: Mode, resolved: Option<string>): (r: string)
    ensures StartsWith(r, "./") && EndsWith(r, ".md")
    ensures mode.PullRequest? ==> r == "./diff-pr-" + NatToString(mode.number) + ".md"
    ensures mode.CommitUrl? ==> r == "./diff-commit-" + Take(mode.sha, 7) + ".md"
    ensures mode.CommitSha? && resolved.None? ==> r == "./diff-commit-" + Take(mode.sha, 7) + ".md"
    ensures mode.CommitSha? && resolved.Some? ==> r == "./diff-commit-" + Take(Strip(resolved.value), 7) + ".md"
    ensures !(mode.PullRequest? || mode.CommitUrl? || mode.CommitSha?) ==> r == "./ai-review.md"
  {
    match mode
    case PullRequest(_, _, number) => "./diff-pr-" + NatToString(number) + ".md"
    case CommitUrl(_, _, sha) => "./diff-commit-" + Take(sha, 7) + ".md"
    case CommitSha(sha) =>
      (match resolved
       case None => "./diff-commit-" + Take(sha, 7) + ".md"
       case Some(out) => "./diff-commit-" + Take(Strip(out), 7) + ".md")
    case _ => "./ai-review.md"
  }

  /** The file the report is written to: `-o` when given, else the default. */
  function OutputPath(explicit: Option<string>, mode: Mode, resolved: Option<string>): (r: string)
    ensures explicit.Some? ==> r == explicit.value
    ensures explicit.None? ==> r == DefaultOutputPath(mode, resolved) && StartsWith(r, "./") && EndsWith(r, ".md")
  {
    if explicit.Some? then explicit.value else DefaultOutputPath(mode, resolved)
  }

  lemma WrappedEqual(pre: string, a: string, b: string, post: string)
    requires pre + a + post == pre + b + post
    ensures a == b
  {
    var s := pre + a + post;
    assert |a| == |b|;
    assert a == s[|pre|..|pre| + |a|];
    assert b == (pre + b + post)[|pre|..|pre| + |b|];
  }

  /** Two pull requests share a default output file only when they have the
      same number. */
  lemma PullPathsDistinct(o1: string, r1: string, n1: nat, o2: string, r2: string, n2: nat)
    requires DefaultOutputPath(PullRequest(o1, r1, n1), None) == DefaultOutputPath(PullRequest(o2, r2, n2), None)
    ensures n1 == n2
  {
    WrappedEqual("./diff-pr-", NatToString(n1), NatToString(n2), ".md");
    DecimalValueOfNatToString(n1);
    DecimalValueOfNatToString(n2);
  }

  /** The file of a commit is named after the first seven characters of its
      sha (all of it when shorter): of the resolved sha for a local commit
      when `rev-parse` succeeded, of the sha as given otherwise. */
  lemma CommitPathNamesSha(mode: Mode, resolved: Option<string>)
    requires mode.CommitUrl? || mode.CommitSha?
    ensures var src := if mode.CommitSha? && resolved.Some? then Strip(resolved.value) else mode.sha;
      exists short ::
        DefaultOutputPath(mode, resolved) == "./diff-commit-" + short + ".md" &&
        |short| == (if |src| < 7 then |src| else 7) && StartsWith(src, short)
  {
    var src := if mode.CommitSha? && resolved.Some? then Strip(resolved.value) else mode.sha;
    var short := Take(src, 7);
    assert DefaultOutputPath(mode, resolved) == "./diff-commit-" + short + ".md";
  }

  /** Every mode without a rule of its own writes `./ai-review.md`. */
  lemma OtherModesDefaultPath(mode: Mode, resolved: Option<string>)
    requires mode.Range? || mode.Worktree? || mode.Unstaged?
    ensures DefaultOutputPath(mode, resolved) == "./ai-review.md"
  {
  }

  // ---------------------------------------------------------------------
  // Truncation gate

  /** `if args.max_lines and args.max_lines > 0: truncate_text(...)`. */
  function ApplyTruncation(diffText: string, maxLines: int): (r: (string, Option<string>))
    ensures maxLines <= 0 ==> r == (diffText, None)
    ensures maxLines > 0 ==> r == TruncateText(diffText, maxLines)
  {
    if maxLines > 0 then TruncateText(diffText, maxLines) else (diffText, None)
  }

  /** The diff handed to the report is always a prefix of the fetched one,
      and a note is attached exactly when a positive limit cut something. */
  lemma TruncationGate(diffText: string, maxLines: int)
    ensures StartsWith(diffText, ApplyTruncation(diffText, maxLines).0)
    ensures ApplyTruncation(diffText, maxLines).1.Some? <==> 0 < maxLines < |Lines(diffText)|
  {
    if maxLines > 0 {
      TruncateKeepsPrefix(diffText, maxLines);
    }
  }

  // ---------------------------------------------------------------------
  // get_parent, over the text `git rev-list --parents -n1 <sha>` printed

  function ParentFromRevList(out: string, sha: string): (r: string)
    ensures |Words(Strip(out))| > 1 ==> r == Words(Strip(out))[1]
    ensures |Words(Strip(out))| <= 1 ==> r == sha + "^"
  {
    var parts := Words(Strip(out));
    if |parts| > 1 then parts[1] else sha + "^"
  }

  /** `rev-list --parents` prints the commit, then its parents, separated by
      single spaces and ended by a newline. */
  function RevListLine(commit: string, parents: seq<string>): string
  {
    Join(" ", [commit] + parents) + "\n"
  }

  lemma WordsOfRevListLine(commit: string, parents: seq<string>)
    requires commit != [] && NoSpace(commit)
    requires forall i :: 0 <= i < |parents| ==> parents[i] != [] && NoSpace(parents[i])
    ensures Words(Strip(RevListLine(commit, parents))) == [commit] + parents
  {
    var ws := [commit] + parents;
    var s := Join(" ", ws);
    assert forall i :: 0 <= i < |ws| ==> ws[i] != [] && NoSpace(ws[i]);
    JoinStartsWithFirst(" ", ws);
    JoinEndsWithLast(" ", ws);
    var last := ws[|ws| - 1];
    assert s[|s| - |last|..] == last;
    assert s[|s| - 1] == last[|last| - 1];
    assert s[0] == commit[0];
    assert "\n" == ['\n'];
    StripDropsTrailingSpace(s, '\n');
    WordsOfJoin(ws);
  }

  /** A commit with parents: the first parent is picked. */
  lemma ParentIsFirstParent(commit: string, parents: seq<string>, sha: string)
    requires commit != [] && NoSpace(commit) && parents != []
    requires forall i :: 0 <= i < |parents| ==> parents[i] != [] && NoSpace(parents[i])
    ensures ParentFromRevList(RevListLine(commit, parents), sha) == parents[0]
  {
    WordsOfRevListLine(commit, parents);
  }

  /** A root commit: the parent falls back to `sha^`. */
  lemma RootCommitParent(commit: string, sha: string)
    requires commit != [] && NoSpace(commit)
    ensures ParentFromRevList(RevListLine(commit, []), sha) == sha + "^"
  {
    WordsOfRevListLine(commit, []);
  }

  // ---------------------------------------------------------------------
  // Summary and commit list

  /** `out.strip() or "(summary unavailable)"` for a `--shortstat` output. */
  function ShortstatSummary(out: string): (r: string)
    ensures r != ""
    ensures Strip(out) != "" ==> r == Strip(out)
    ensures Strip(out) == "" ==> r == "(summary unavailable)"
  {
    var s := Strip(out);
    if s != "" then s else "(summary unavailable)"
  }

  /** The range mode's summary: the range's own `--shortstat`, falling back
      to the plain one. */
  function RangeSummary(rangeOut: string, plainOut: string): (r: string)
    ensures r != ""
    ensures Strip(rangeOut) != "" ==> r == Strip(rangeOut)
    ensures Strip(rangeOut) == "" ==> r == ShortstatSummary(plainOut)
  {
    var s := Strip(rangeOut);
    if s != "" then s else ShortstatSummary(plainOut)
  }

  /** `commits_md if commits_md.strip() else None`. */
  function CommitsOrNone(commitsMd: string): (r: Option<string>)
    ensures r.Some? <==> Strip(commitsMd) != ""
    ensures r.Some? ==> r.value == commitsMd
  {
    if Strip(commitsMd) != "" then Some(commitsMd) else None
  }

  /** What `main` passes on is never a blank-but-present commit list: it is
      either absent or non-empty, so the report shows the commits section
      exactly when the list has a non-blank character. */
  lemma CommitsSectionShown(commitsMd: string)
    ensures Truthy(CommitsOrNone(commitsMd)) <==> Strip(commitsMd) != ""
  {
    assert Strip("") == "";
  }
}
