# ai-diff: a verified model of the text layer

`ai-diff.py` gathers a diff from git or GitHub and writes it as a Markdown
review document. This project models the deterministic text processing
between fetching and writing:

- classifying the target (`detect_mode`);
- splitting a range;
- splitting a unified diff into per-file chunks (`split_diff_by_file`);
- naming each chunk (`infer_filename`, `strip_prefix`);
- cutting the diff to a line limit (`truncate_text`);
- formatting the commit list (`git_commits_table`);
- assembling the report (`build_markdown`);
- reading owner and repository from a URL (`parse_github_repo_from_url`);
- the small decisions `main` makes around these: the target label, the default output path, the truncation gate, the parent pick and the shortstat fallback.

What git, GitHub and the clock would supply is taken as input: the text a
git command printed, or the `Generated` timestamp.

Files and modules:

| file | module | contents |
|---|---|---|
| `wrappers.dfy` | `Wrappers` | `Option` and `Result` |
| `text.dfy` | `Text` | the Python string operations the source relies on: `str.strip` with the full `str.isspace` set, `split()`, `splitlines()`, `"\n".join`, `in`, `int()` of decimal digits, `str(n)`, slicing |
| `target.dfy` | `Target` | the URL prefix matchers, `detect_mode`, `parse_github_repo_from_url`, the range split |
| `diff.dfy` | `Diff` | `strip_prefix`, `infer_filename` and `split_diff_by_file` |
| `report.dfy` | `Report` | `truncate_text`, the commit-table formatting, `build_markdown` |
| `driver.dfy` | `Driver` | the fragments of `main` |

The loops of `infer_filename`, `split_diff_by_file` and `build_markdown` are methods, each proved against a specification function:

- `Diff.InferFilename` and its scans are proved against `Diff.FilenameOf`.
- `Diff.SplitLinesByFile` is proved against `Diff.Chunks`. `Chunks` cuts the lines into segments at each marker. The line-by-line reading `Diff.Scan` is proved equal to it by `Diff.ScanIsChunks`.

`Report.BuildMarkdown` appends to a `parts` list step by step, as the source does. It is proved equal to the function `Report.Markdown`. `Markdown` renders the chunks that `split_diff_by_file` finds with `Report.Render`, which concatenates the head, one section per chunk and the tail. The properties of the document are lemmas about `Render`. The helper prompt is the constant `Report.ReviewPrompt`: the literal of ai-diff.py:131-141 after `textwrap.dedent` and `lstrip`, written out by hand.

## Model

| member | source | states |
|---|---|---|
| Target.DetectMode | ai-diff.py:48-74 | Total and ordered. `WORKTREE` and `UNSTAGED` give their own modes, exactly. A `pr` result is what the pull-URL matcher gave. A `commit_url` result is the commit-URL match of a string that is no pull URL. A `range` result carries the target, which holds `..` and matches neither pattern. A `commit_sha` result carries the target itself, which has no `..`. |
| Target.MatchRepoUrl | ai-diff.py:58 | The `https?://github\.com/([^/]+)/([^/]+)` prefix: on a match, both groups are non-empty and slash-free, and the string is the scheme, host, groups and rest in that order. |
| Target.MatchRepoUrlComplete | ai-diff.py:58 | Every string of that shape is matched, with exactly its groups and rest. |
| Target.SplitDigitsOf | ai-diff.py:58 | The greedy `\d+` takes exactly a maximal digit run. |
| Target.SplitHexOf | ai-diff.py:63 | The greedy `[0-9a-fA-F]{7,40}` takes a maximal hex run of at most forty characters. |
| Target.MatchPullUrl | ai-diff.py:58-61 | A pull match yields the repository match's owner and repo. |
| Target.MatchCommitUrl | ai-diff.py:63-66 | A commit match yields the repository match's owner and repo and a 7 to 40 digit hex sha. |
| Target.PullUrlDetected | ai-diff.py:58-61 | Any `http(s)://github.com/o/r/pull/<digits>…` is `pr` with `o`, `r` and the decimal value of the digits, whatever follows them. |
| Target.PullUrlSound | ai-diff.py:58-61 | Conversely, every `pr` result comes from such a URL. |
| Target.CommitUrlSound | ai-diff.py:63-66 | Conversely, every `commit_url` result comes from a commit URL with that owner, repo and sha. |
| Target.CommitUrlDetected | ai-diff.py:63-66 | Any string of the commit-URL shape is `commit_url` with its owner, repo and captured sha. |
| Target.CommitUrlMatched | ai-diff.py:58-66 | A commit URL is not taken for a pull URL, and the commit pattern captures its sha. |
| Target.RangeDetected | ai-diff.py:68-69 | A string holding `..` that neither URL pattern matches is `range` of itself. |
| Target.IsShaLike | ai-diff.py:71 | `re.fullmatch(r"[0-9a-fA-F]{7,40}")`. A string it accepts never holds `..`, so the range test before it never takes a sha. |
| Target.HexShaDetected | ai-diff.py:71-72 | A 7 to 40 character hex string is `commit_sha` of itself. |
| Target.FallbackIsCommitSha | ai-diff.py:73-74 | Every other string is `commit_sha` of itself: nothing is rejected. |
| Target.UrlIsNotLiteral | ai-diff.py:53-56 | A URL is never one of the two literal targets. |
| Target.ParseGithubRepoFromUrl | ai-diff.py:233-237 | Succeeds exactly when the repository pattern matches, giving the matched owner and the matched repository with `StripGitSuffix` applied. Fails with `Not a GitHub URL: <url>` otherwise. |
| Target.StripGitSuffix | ai-diff.py:237 | A name ending in `.git` loses exactly those four characters. A name ending in `.git` and a newline keeps only the newline. Any other name is unchanged. |
| Target.StripGitSuffixRemoves | ai-diff.py:237 | `re.sub(r"\.git$", "")` removes a final `.git`, and also one just before a final newline. |
| Target.StripGitSuffixKeeps | ai-diff.py:237 | A name not ending in `.git` is unchanged. |
| Target.ParseCloneUrl | ai-diff.py:233-237 | A clone URL `…/o/r.git` gives `(o, r)`. |
| Target.SplitRange | ai-diff.py:345-353 | A range with `...` is passed whole. Otherwise the result is two endpoints split at the first `..`, with `a + ".." + b` equal to the range, no `..` in `a`, and no dot next to the cut. |
| Diff.StripPrefix | ai-diff.py:196-199 | After a leading `a/` or `b/` the result is exactly the rest of the path. Otherwise the path is unchanged. |
| Diff.StripPrefixOf | ai-diff.py:196-199 | Stripping undoes adding either prefix. |
| Diff.FilenameOf | ai-diff.py:169-194 | The name is never empty. |
| Diff.NewPathWins | ai-diff.py:173-178 | The first `+++ ` line whose path is not `/dev/null` names the file, prefix stripped. |
| Diff.OldPathFallback | ai-diff.py:179-185 | When the `+++ ` lines name nothing (none is accepted, or the first accepted path strips to ""), the first accepted `--- ` line names the file. |
| Diff.HeaderFallback | ai-diff.py:186-191 | When neither the `+++ ` nor the `--- ` lines name anything, the fourth token of the `diff --git` header, prefix stripped, names the file. |
| Diff.UnknownFallback | ai-diff.py:194 | When the `+++ ` and `--- ` lines name nothing and the header is missing, is no `diff --git` line, has fewer than four tokens or a fourth token that strips to "", the name is `(unknown file)`. |
| Diff.FirstPathIndex | ai-diff.py:173-178 | A found path comes from the first accepted line. |
| Diff.ModifiedFileName | ai-diff.py:169-194 | `--- a/p`, `+++ b/p` name the file `p`. |
| Diff.DeletedFileName | ai-diff.py:169-194 | `--- a/p` with `+++ /dev/null` names the file `p`. |
| Diff.ScanPaths | ai-diff.py:173-185 | The `for … break` loop finds the first usable path of a tag, prefix stripped, or nothing. |
| Diff.InferFilename | ai-diff.py:169-194 | The method returns exactly `FilenameOf`. |
| Diff.ScanIsChunks | ai-diff.py:153-166 | Reading line by line and emitting the pending lines at each marker and at the end gives the non-empty segments between markers. |
| Diff.SplitLinesByFile | ai-diff.py:150-167 | The loop emits, in order, one `(filename, "\n".join(lines))` per non-empty segment. |
| Diff.SplitDiffByFile | ai-diff.py:144-167 | The same, on `diff_text.splitlines()`. |
| Diff.ChunksKeepLines | ai-diff.py:149-167 | The chunks' lines, concatenated in order, are exactly the input lines with every `diff --git ` line removed. |
| Diff.SplitKeepsContent | ai-diff.py:149-167 | Joining the chunk texts with newlines gives the marker-free lines joined with newlines. |
| Diff.ChunksCount | ai-diff.py:153-166 | No chunk is empty, and there are at most one more chunks than markers. |
| Diff.ChunksEmpty | ai-diff.py:154-166 | There is no chunk exactly when every line is a marker. |
| Diff.MarkerThenMarker | ai-diff.py:154-158 | A marker directly followed by a marker produces no chunk. |
| Diff.MarkerAtEnd | ai-diff.py:165-166 | A marker at the end of input produces no chunk. |
| Diff.MarkerThenLines | ai-diff.py:154-166 | A marker followed by marker-free lines up to the next marker or the end makes one chunk of exactly those lines. |
| Diff.OneChunk | ai-diff.py:154-166 | A marker and marker-free lines are one chunk. |
| Diff.ModifiedFileChunk | ai-diff.py:144-194 | A one-file diff of a modified file is one chunk, named after the file, holding every line after the marker. |
| Diff.SegmentsKeepLines | ai-diff.py:153-164 | Segmenting keeps every non-marker line in order and makes one segment per marker plus one. |
| Report.SliceTo | ai-diff.py:205 | Python's `lines[:k]`, negative `k` included, is a prefix of the stated length. |
| Report.TruncationNote | ai-diff.py:206 | The note opens with `Diff truncated after <max_lines> lines (total: ` and ends with `<total>). Consider reviewing the remainder locally.`, so it names both numbers. It holds no newline, so it fits the report's single quoted line. |
| Report.TruncateText | ai-diff.py:201-207 | At most `max_lines` lines: the text itself and no note. More: the first `max_lines` lines joined by `\n` and a note naming `max_lines` and the true total. |
| Report.TruncateKeepsPrefix | ai-diff.py:201-207 | The kept text is always a prefix of the original. |
| Report.TruncateKeepsLines | ai-diff.py:201-207 | When the cut follows a non-empty line, the kept text reads back as exactly the first `max_lines` lines, and truncating it again changes nothing. |
| Report.Bullets | ai-diff.py:98 | Every bullet starts with `- `, and there are no more bullets than log lines. |
| Report.BulletsOne | ai-diff.py:98 | A non-blank log line becomes `- ` followed by the line, and a blank one (after `strip`) becomes nothing. |
| Report.BulletsAppend | ai-diff.py:98 | The log is formatted line by line, in order: the bullets of two logs are those of the first followed by those of the second. |
| Report.CommitsTable | ai-diff.py:91-100 | A failed `git log`/`git show` (`None`) gives the empty table. A log gives its bullets joined by newlines. |
| Report.CommitsTableLines | ai-diff.py:98 | Reading the table back line by line gives one bullet per non-blank log line, in order. |
| Report.BlankLogEmptyTable | ai-diff.py:98 | A log of blank lines gives the empty table. |
| Report.Markdown | ai-diff.py:102-142 | The document for a diff opens with its title line. |
| Report.BuildMarkdown | ai-diff.py:102-142 | The document is the rendering of the chunks the splitter finds in the diff. |
| Report.Assemble | ai-diff.py:103-142 | The appends produce head, diff sections and tail in that order. |
| Report.RenderStartsWithTitle | ai-diff.py:104 | The document opens with `# AI Code Review: <title>`. |
| Report.CommitsSection | ai-diff.py:106-108 | A non-empty commit list appears under `## Commits`. An empty or missing one leaves the document as without it. |
| Report.EveryFileRendered | ai-diff.py:120-126 | Every chunk has its section: `diff`, its name, and its content with trailing whitespace removed in a fenced block. |
| Report.SectionsInOrder | ai-diff.py:120-126 | With chunks, the document is exactly the head, then every chunk's section in the splitter's order, then the tail. |
| Report.FallbackBlock | ai-diff.py:115-119 | With no chunk, the whole diff, right-stripped, is one fenced block. |
| Report.MarkdownFallback | ai-diff.py:114-119 | A diff with no line outside marker lines takes that fallback form. |
| Report.NoteAfterDiffs | ai-diff.py:128-129 | A non-empty note is one quoted line right after the diffs. An empty or missing one adds nothing. |
| Report.PromptIsSuffix | ai-diff.py:130-142 | The prompt is only ever appended at the very end. |
| Driver.TargetLabel | ai-diff.py:316-380 | Pull requests and commit URLs are labelled with their canonical `https://github.com/...` URL. A local sha, a range, `WORKTREE` and `UNSTAGED` are labelled as given. |
| Driver.LabelKeepsMode | ai-diff.py:316-380 | The printed target label is classified exactly as the target was. |
| Driver.PullLabelDetected | ai-diff.py:319 | The canonical pull URL is read back as the same pull request. |
| Driver.CommitLabelDetected | ai-diff.py:325 | The canonical commit URL is read back as the same commit. |
| Driver.DefaultOutputPath | ai-diff.py:316-386 | `./diff-pr-<num>.md` for a pull request. `./diff-commit-<sha[:7]>.md` for a commit URL. For a local commit, `./diff-commit-<resolved[:7]>.md` when `rev-parse` answered, else `sha[:7]`. `./ai-review.md` for every other mode. Every default starts with `./` and ends with `.md`. |
| Driver.OutputPath | ai-diff.py:314-386 | `-o` wins when given, else the default path. |
| Driver.PullPathsDistinct | ai-diff.py:320-321 | Two pull requests share a default file only when their numbers agree. |
| Driver.CommitPathNamesSha | ai-diff.py:326-342 | A commit's file is named after exactly the first seven characters (all of them when shorter): of the resolved sha when `rev-parse` answered, else of the sha as given. |
| Driver.OtherModesDefaultPath | ai-diff.py:384-386 | Range, worktree and unstaged default to `./ai-review.md`. |
| Driver.ApplyTruncation | ai-diff.py:389-390 | No limit above zero: the diff is untouched. Otherwise `truncate_text` applies. |
| Driver.TruncationGate | ai-diff.py:389-390 | The diff passed on is a prefix of the fetched one, with a note exactly when a positive limit cut lines. |
| Driver.ParentFromRevList | ai-diff.py:210-212 | The second whitespace token of the stripped `rev-list` line when there is one, else `sha^`. |
| Driver.WordsOfRevListLine | ai-diff.py:210-211 | Stripping and splitting a `rev-list --parents` line gives the commit and its parents. |
| Driver.ParentIsFirstParent | ai-diff.py:210-212 | With parents, the first parent is picked. |
| Driver.RootCommitParent | ai-diff.py:212 | A root commit falls back to `sha^`. |
| Driver.ShortstatSummary | ai-diff.py:88-89 | The stripped output when that has content, else `(summary unavailable)`. Never empty. |
| Driver.RangeSummary | ai-diff.py:356-358 | The range's own stripped `--shortstat` output when that has content, else the plain shortstat summary. Never empty. |
| Driver.CommitsOrNone | ai-diff.py:398 | A commit list is passed exactly when it has a non-blank character, and then unchanged. |
| Driver.CommitsSectionShown | ai-diff.py:398 | The report shows the commits section exactly when the list is not blank. |
| Text.LinesOfJoin | ai-diff.py:98 | Lines without `\n`, the last not empty, joined by `\n` read back as themselves. |
| Text.WordsOfJoin | ai-diff.py:211 | Non-empty space-free words joined by spaces split back into themselves. |
| Text.DecimalValueOfNatToString | ai-diff.py:60 | `int(str(n)) == n`. |

## Left out

- Process and network I/O are not modelled: `run_git`, `safe_repo_name`, the subprocess call of `git_shortstat`, `local_diff`, `worktree_diff`, `unstaged_diff`, `http_get`, `fetch_pr_bundle` and `fetch_commit_bundle`. Their results enter as strings. Examples are the `rev-list`, `rev-parse` and `--shortstat` outputs and the log text; for `rev-parse`, `None` stands for its failure.
- In `main`, the following are not modelled:
  - argparse and the token from the environment;
  - the file write and `print`;
  - the exception-to-exit-code handling;
  - which git commands each mode builds;
  - the title and summary taken from fetched metadata.
- `datetime.now()` is not modelled; the `Generated` timestamp is a parameter.
- `splitlines()` is modelled as a split on `'\n'` that drops a final empty piece; Python also splits on `\r`, `\x0b`, `\x0c`, `\x1c`-`\x1e`, `\x85`, ` ` and ` `.
- `\d` in the pull-URL pattern is modelled as ASCII digits only; Python also accepts other Unicode decimal digits.
- UTF-8 decoding with replacement is not modelled, nor general regex semantics. Only the URL shapes, the hex test and the `\.git$` substitution are modelled.
- Target.SplitRange: requires the range to contain `..`. Its only caller is range mode, and `detect_mode` enters that mode only then; elsewhere Python's tuple unpacking would raise.
- Report.TruncateKeepsLines: stated only when the cut follows a non-empty line. After an empty line, `"\n".join` ends in `\n`, and `splitlines` reads one line fewer back.
- Driver.RangeSummary: the range's own `--shortstat` output is an input string. The splitting of the range on whitespace for that command is not modelled.
- Diff.FilenameOf: the `except Exception` branch of `infer_filename` is not modelled, because `str.split` and indexing guarded by `len(parts) >= 4` cannot raise there.
- Report.BuildMarkdown: the per-file header follows the code, `diff`, newline, then the file name on its own line. It is not a decorated heading.
