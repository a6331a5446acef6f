/**
 * The report side of the tool: cutting a long diff down to its first lines
 * (`truncate_text`), turning a commit log into a bullet list (the
 * formatting in `git_commits_table`), and assembling the Markdown review
 * document (`build_markdown`) with its fixed section order.
 */
module Report {
  import opened Wrappers
  import opened Text
  import opened Diff

  // ---------------------------------------------------------------------
  // truncate_text

  /** Python's `xs[:k]` for any integer `k`: a negative `k` counts from the end. */
  function SliceTo<T>(xs: seq<T>, k: int): (r: seq<T>)
    ensures |r| <= |xs| && r == xs[..|r|]
    ensures 0 <= k <= |xs| ==> |r| == k
    ensures k < 0 ==> |r| == (if |xs| + k < 0 then 0 else |xs| + k)
  {
    if k >= |xs| then xs
    else if k >= 0 then xs[..k]
    else if |xs| + k >= 0 then xs[..|xs| + k]
    else []
  }

  /** A decimal numeral holds no newline. */
  lemma NumeralHasNoNewline(i: int)
    ensures '\n' !in IntToString(i)
  {
    var ds := NatToString(if i < 0 then -i else i);
    assert '\n' !in "-";
  }

  /** Five newline-free pieces joined: the first three open it, the last
      two end it. */
  lemma FivePieces(p0: string, p1: string, p2: string, p3: string, p4: string)
    requires '\n' !in p0 && '\n' !in p1 && '\n' !in p2 && '\n' !in p3 && '\n' !in p4
    ensures StartsWith(p0 + p1 + p2 + p3 + p4, p0 + p1 + p2)
    ensures EndsWith(p0 + p1 + p2 + p3 + p4, p3 + p4)
    ensures '\n' !in p0 + p1 + p2 + p3 + p4
  {
    var s := p0 + p1 + p2 + p3 + p4;
    assert s == (p0 + p1 + p2) + (p3 + p4);
    assert s[..|p0 + p1 + p2|] == p0 + p1 + p2;
    assert s[|s| - |p3 + p4|..] == p3 + p4;
  }

  /** The note attached to a truncated diff: one line naming the limit and
      the real line count. */
  function TruncationNote(maxLines: int, total: nat): (r: string)
    ensures StartsWith(r, "Diff truncated after " + IntToString(maxLines) + " lines (total: ")
    ensures EndsWith(r, NatToString(total) + "). Consider reviewing the remainder locally.")
    ensures '\n' !in r
  {
    var p0, p2, p4 := "Diff truncated after ", " lines (total: ", "). Consider reviewing the remainder locally.";
    NumeralHasNoNewline(maxLines);
    NumeralHasNoNewline(total);
    assert IntToString(total) == NatToString(total);
    FivePieces(p0, IntToString(maxLines), p2, NatToString(total), p4);
    p0 + IntToString(maxLines) + p2 + NatToString(total) + p4
  }

  /** `truncate_text(text, max_lines)`: the text itself and no note when it
      has at most `max_lines` lines, else its first `max_lines` lines and a
      note naming `max_lines` and the real line count. */
  function TruncateText(text: string, maxLines: int): (r: (string, Option<string>))
    ensures |Lines(text)| <= maxLines ==> r == (text, None)
    ensures |Lines(text)| > maxLines ==> r.1 == Some(TruncationNote(maxLines, |Lines(text)|))
    ensures 0 <= maxLines < |Lines(text)| ==> r.0 == Join("\n", Lines(text)[..maxLines])
  {
    var lines := Lines(text);
    if |lines| <= maxLines then (text, None)
    else (Join("\n", SliceTo(lines, maxLines)), Some(TruncationNote(maxLines, |lines|)))
  }

  /** Whatever the limit, the text kept is a prefix of the original. */
  lemma TruncateKeepsPrefix(text: string, maxLines: int)
    ensures StartsWith(text, TruncateText(text, maxLines).0)
  {
    var lines := Lines(text);
    if |lines| > maxLines {
      var kept := SliceTo(lines, maxLines);
      assert kept == lines[..|kept|];
      JoinPrefix("\n", lines, |kept|);
      LinesJoinPrefix(text);
      StartsWithTrans(text, Join("\n", lines), Join("\n", kept));
    }
  }

  /** When the cut falls after a non-empty line, the text kept reads back as
      exactly the first `maxLines` lines, so cutting it again changes
      nothing and adds no note. */
  lemma TruncateKeepsLines(text: string, maxLines: int)
    requires 0 < maxLines < |Lines(text)| && Lines(text)[maxLines - 1] != ""
    ensures Lines(TruncateText(text, maxLines).0) == Lines(text)[..maxLines]
    ensures TruncateText(TruncateText(text, maxLines).0, maxLines) == (TruncateText(text, maxLines).0, None)
  {
    var kept := Lines(text)[..maxLines];
    assert forall i :: 0 <= i < |kept| ==> kept[i] == Lines(text)[i];
    LinesOfJoin(kept);
  }

  // ---------------------------------------------------------------------
  // git_commits_table: the formatting of the log

  /** `- line` for every line of the log that is not blank. */
  function Bullets(lines: seq<string>): (r: seq<string>)
    ensures |r| <= |lines|
    ensures forall i :: 0 <= i < |r| ==> StartsWith(r[i], "- ")
  {
    if lines == [] then []
    else (if Strip(lines[0]) != "" then ["- " + lines[0]] else []) + Bullets(lines[1..])
  }

  /** The table for a log, or the empty table when reading the log failed
      (`None`). */
  function CommitsTable(log: Option<string>): (r: string)
    ensures log.None? ==> r == ""
    ensures log.Some? ==> r == Join("\n", Bullets(Lines(log.value)))
  {
    match log
    case None => ""
    case Some(text) => Join("\n", Bullets(Lines(text)))
  }

  lemma {:induction false} BulletsHaveNoNewline(lines: seq<string>)
    requires forall i :: 0 <= i < |lines| ==> '\n' !in lines[i]
    ensures forall i :: 0 <= i < |Bullets(lines)| ==> '\n' !in Bullets(lines)[i]
  {
    if lines != [] {
      BulletsHaveNoNewline(lines[1..]);
      var head := if Strip(lines[0]) != "" then ["- " + lines[0]] else [];
      assert Bullets(lines) == head + Bullets(lines[1..]);
    }
  }

  /** Reading the table back line by line gives exactly the bullets, one per
      non-blank log line: no bullet spans or merges lines. */
  lemma CommitsTableLines(log: string)
    ensures Lines(CommitsTable(Some(log))) == Bullets(Lines(log))
  {
    var bs := Bullets(Lines(log));
    BulletsHaveNoNewline(Lines(log));
    if bs != [] {
      assert bs[|bs| - 1][..2] == "- ";
    }
    LinesOfJoin(bs);
  }

  /** A bullet list of two logs is the lists of each, one after the other. */
  lemma {:induction false} BulletsAppend(a: seq<string>, b: seq<string>)
    ensures Bullets(a + b) == Bullets(a) + Bullets(b)
  {
    if a == [] {
      assert a + b == b;
    } else {
      assert (a + b)[0] == a[0];
      assert (a + b)[1..] == a[1..] + b;
      BulletsAppend(a[1..], b);
    }
  }

  /** A single log line becomes `- ` and the line when it is not blank, and
      disappears otherwise. */
  lemma BulletsOne(line: string)
    ensures Bullets([line]) == if Strip(line) != "" then ["- " + line] else []
  {
    assert [line][1..] == [];
  }

  /** A log with no non-blank line gives the empty table. */
  lemma {:induction false} BlankLogEmptyTable(lines: seq<string>)
    requires forall i :: 0 <= i < |lines| ==> Strip(lines[i]) == ""
    ensures Bullets(lines) == []
  {
    if lines != [] {
      BlankLogEmptyTable(lines[1..]);
    }
  }

  // ---------------------------------------------------------------------
  // build_markdown

  /** The helper prompt, as the dedented and left-stripped literal reads. */
  const ReviewPrompt: string :=
    "---\n\n## Prompt\n"
    + "You are a senior code reviewer. Assess correctness, security, performance, and readability.\n"
    + "Flag risky patterns, missing tests, unclear names, and potential regressions, give categories for e.g Critical, High, Medium, Low and give order of the issues.\n"
    + "Suggest concrete fixes and test cases, also give categories for e.g Critical, High, Medium, Low and give order of the tests.\n"
    + "Give a score for e.g 1-10 for the overall quality of the code.\n"
    + "Give a summary of the changes in a few sentences.\n"
    + "Lastly suggest a few features that could be added to the code or the project.\n"

  /** `"".join(parts)`. */
  function Concat(parts: seq<string>): string
  {
    if parts == [] then "" else parts[0] + Concat(parts[1..])
  }

  lemma {:induction false} ConcatAppend(a: seq<string>, b: seq<string>)
    ensures Concat(a + b) == Concat(a) + Concat(b)
  {
    if a == [] {
      assert a + b == b;
    } else {
      assert (a + b)[1..] == a[1..] + b;
      ConcatAppend(a[1..], b);
    }
  }

  /** The parts appended for one file chunk. */
  function SectionParts(f: FileChunk): seq<string>
  {
    ["diff\n", f.filename + "\n", "```diff\n", RStrip(f.content) + "\n", "```\n\n"]
  }

  /** One file chunk's section as it reads in the document. */
  function FileSection(f: FileChunk): string
  {
    "diff\n" + (f.filename + "\n") + ("```diff\n" + (RStrip(f.content) + "\n") + "```\n\n")
  }

  function FileParts(files: seq<FileChunk>): seq<string>
  {
    if files == [] then [] else SectionParts(files[0]) + FileParts(files[1..])
  }

  lemma {:induction false} FilePartsAppend(a: seq<FileChunk>, b: seq<FileChunk>)
    ensures FileParts(a + b) == FileParts(a) + FileParts(b)
  {
    if a == [] {
      assert a + b == b;
    } else {
      assert (a + b)[1..] == a[1..] + b;
      FilePartsAppend(a[1..], b);
    }
  }

  lemma FilePartsStep(files: seq<FileChunk>, i: nat)
    requires i < |files|
    ensures FileParts(files[..i + 1]) == FileParts(files[..i]) + SectionParts(files[i])
  {
    assert files[..i + 1] == files[..i] + [files[i]];
    FilePartsAppend(files[..i], [files[i]]);
    assert FileParts([files[i]]) == SectionParts(files[i]) + FileParts([]);
  }

  /** The title, metadata, commits, summary and "Diffs" heading. */
  function HeadParts(title: string, repoName: string, targetLabel: string, summary: string,
                     commitsMd: Option<string>, generated: string): seq<string>
  {
    ["# AI Code Review: " + title + "\n",
     "**Repo:** " + repoName + "\n**Target:** " + targetLabel + "\n**Generated:** " + generated + "\n"]
    + (if Truthy(commitsMd) then ["\n## Commits\n", commitsMd.value + "\n"] else [])
    + ["\n## Summary of Changes\n", summary + "\n", "\n## Diffs\n"]
  }

  /** One section per file chunk, or the whole diff in one block when the
      splitter found no chunk. */
  function DiffParts(diffText: string, files: seq<FileChunk>): seq<string>
  {
    if files == [] then ["```diff\n", RStrip(diffText) + "\n", "```\n"] else FileParts(files)
  }

  /** The truncation note, then the prompt. */
  function TailParts(truncatedNote: Option<string>, prompt: bool): seq<string>
  {
    (if Truthy(truncatedNote) then ["\n> " + truncatedNote.value + "\n"] else [])
    + (if prompt then [ReviewPrompt] else [])
  }

  /** The document for the given file chunks: the head, the diff sections
      and the tail, in that order. */
  function Render(title: string, repoName: string, targetLabel: string, summary: string,
                  diffText: string, files: seq<FileChunk>, commitsMd: Option<string>, prompt: bool,
                  truncatedNote: Option<string>, generated: string): string
  {
    Concat(HeadParts(title, repoName, targetLabel, summary, commitsMd, generated)
           + DiffParts(diffText, files)
           + TailParts(truncatedNote, prompt))
  }

  /** The document `build_markdown` writes, for the given timestamp: the
      rendering of the chunks `split_diff_by_file` finds in the diff. */
  function Markdown(title: string, repoName: string, targetLabel: string, summary: string,
                    diffText: string, commitsMd: Option<string>, prompt: bool,
                    truncatedNote: Option<string>, generated: string): (r: string)
    ensures StartsWith(r, "# AI Code Review: " + title + "\n")
  {
    var files := ToFileChunks(Chunks(Lines(diffText)));
    RenderStartsWithTitle(title, repoName, targetLabel, summary, diffText, files, commitsMd, prompt, truncatedNote, generated);
    Render(title, repoName, targetLabel, summary, diffText, files, commitsMd, prompt, truncatedNote, generated)
  }

  /** The tail is what the two optional appends add after the diffs. */
  lemma TailAppends(body: seq<string>, truncatedNote: Option<string>, prompt: bool)
    ensures body + TailParts(truncatedNote, prompt)
         == (var withNote := if Truthy(truncatedNote) then body + ["\n> " + truncatedNote.value + "\n"] else body;
             if prompt then withNote + [ReviewPrompt] else withNote)
  {
  }

  /** `build_markdown(...)`, with the `Generated` timestamp passed in. */
  method BuildMarkdown(title: string, repoName: string, targetLabel: string, summary: string,
                       diffText: string, commitsMd: Option<string>, prompt: bool,
                       truncatedNote: Option<string>, generated: string) returns (md: string)
    ensures md == Markdown(title, repoName, targetLabel, summary, diffText, commitsMd, prompt, truncatedNote, generated)
  {
    var perFiles := SplitDiffByFile(diffText);
    md := Assemble(title, repoName, targetLabel, summary, diffText, perFiles, commitsMd, prompt, truncatedNote, generated);
  }

  /** The appends of `build_markdown` once the diff is split into `perFiles`. */
  method Assemble(title: string, repoName: string, targetLabel: string, summary: string,
                  diffText: string, perFiles: seq<FileChunk>, commitsMd: Option<string>, prompt: bool,
                  truncatedNote: Option<string>, generated: string) returns (md: string)
    ensures md == Render(title, repoName, targetLabel, summary, diffText, perFiles, commitsMd, prompt, truncatedNote, generated)
  {
    var parts: seq<string> := [];
    parts := parts + ["# AI Code Review: " + title + "\n"];
    parts := parts + ["**Repo:** " + repoName + "\n**Target:** " + targetLabel + "\n**Generated:** " + generated + "\n"];
    if Truthy(commitsMd) {
      parts := parts + ["\n## Commits\n"];
      parts := parts + [commitsMd.value + "\n"];
    }
    parts := parts + ["\n## Summary of Changes\n"];
    parts := parts + [summary + "\n"];
    parts := parts + ["\n## Diffs\n"];
    ghost var head := parts;
    assert head == HeadParts(title, repoName, targetLabel, summary, commitsMd, generated);

    if |perFiles| == 0 {
      parts := parts + ["```diff\n"];
      parts := parts + [RStrip(diffText) + "\n"];
      parts := parts + ["```\n"];
    } else {
      for i := 0 to |perFiles|
        invariant parts == head + FileParts(perFiles[..i])
      {
        var f := perFiles[i];
        FilePartsStep(perFiles, i);
        parts := parts + ["diff\n", f.filename + "\n", "```diff\n", RStrip(f.content) + "\n", "```\n\n"];
      }
      assert perFiles[..|perFiles|] == perFiles;
    }
    assert parts == head + DiffParts(diffText, perFiles);
    ghost var body := parts;
    if Truthy(truncatedNote) {
      parts := parts + ["\n> " + truncatedNote.value + "\n"];
    }
    if prompt {
      parts := parts + [ReviewPrompt];
    }
    TailAppends(body, truncatedNote, prompt);
    md := Concat(parts);
  }

  // ---------------------------------------------------------------------
  // What the document promises

  lemma ContainsMiddle(a: string, x: string, b: string)
    ensures Contains(a + x + b, x)
  {
    assert OccursAt(a + x + b, x, |a|);
  }

  lemma ContainsWithin(s: string, t: string, a: string, b: string)
    requires Contains(t, s)
    ensures Contains(a + t + b, s)
  {
    var i :| 0 <= i <= |t| && OccursAt(t, s, i);
    assert (a + t + b)[|a| + i..|a| + i + |s|] == t[i..i + |s|];
    assert OccursAt(a + t + b, s, |a| + i);
  }

  lemma ConcatCons(x: string, rest: seq<string>)
    ensures Concat([x] + rest) == x + Concat(rest)
  {
    assert ([x] + rest)[1..] == rest;
  }

  lemma ConcatSplit(a: seq<string>, b: seq<string>, c: seq<string>)
    ensures Concat(a + b + c) == Concat(a) + Concat(b) + Concat(c)
  {
    ConcatAppend(a + b, c);
    ConcatAppend(a, b);
  }

  lemma ConcatPair(x: string, y: string)
    ensures Concat([x, y]) == x + y
  {
    ConcatCons(x, [y]);
    ConcatCons(y, []);
    assert [x, y] == [x] + [y];
  }

  lemma ConcatTriple(x: string, y: string, z: string)
    ensures Concat([x, y, z]) == x + y + z
  {
    assert [x, y, z] == [x] + [y, z];
    ConcatCons(x, [y, z]);
    ConcatPair(y, z);
  }

  lemma SectionText(f: FileChunk)
    ensures Concat(SectionParts(f)) == FileSection(f)
  {
    var ps := SectionParts(f);
    assert ps == [ps[0], ps[1]] + [ps[2], ps[3], ps[4]];
    ConcatAppend([ps[0], ps[1]], [ps[2], ps[3], ps[4]]);
    ConcatPair(ps[0], ps[1]);
    ConcatTriple(ps[2], ps[3], ps[4]);
  }

  /** A joined list starts with its first part. */
  lemma ConcatStartsWithFirst(parts: seq<string>)
    requires parts != []
    ensures StartsWith(Concat(parts), parts[0])
  {
    var x, rest := parts[0], Concat(parts[1..]);
    assert (x + rest)[..|x|] == x;
  }

  /** The document opens with the title line. */
  lemma RenderStartsWithTitle(title: string, repoName: string, targetLabel: string, summary: string,
                              diffText: string, files: seq<FileChunk>, commitsMd: Option<string>, prompt: bool,
                              truncatedNote: Option<string>, generated: string)
    ensures StartsWith(Render(title, repoName, targetLabel, summary, diffText, files, commitsMd, prompt, truncatedNote, generated),
                       "# AI Code Review: " + title + "\n")
  {
    var all := HeadParts(title, repoName, targetLabel, summary, commitsMd, generated)
               + DiffParts(diffText, files) + TailParts(truncatedNote, prompt);
    assert all[0] == "# AI Code Review: " + title + "\n";
    ConcatStartsWithFirst(all);
  }

  /** Asking for the prompt only appends it at the very end. */
  lemma PromptIsSuffix(title: string, repoName: string, targetLabel: string, summary: string,
                       diffText: string, files: seq<FileChunk>, commitsMd: Option<string>,
                       truncatedNote: Option<string>, generated: string)
    ensures Render(title, repoName, targetLabel, summary, diffText, files, commitsMd, true, truncatedNote, generated)
         == Render(title, repoName, targetLabel, summary, diffText, files, commitsMd, false, truncatedNote, generated) + ReviewPrompt
  {
    var body := HeadParts(title, repoName, targetLabel, summary, commitsMd, generated) + DiffParts(diffText, files);
    var note := TailParts(truncatedNote, false);
    assert TailParts(truncatedNote, true) == note + [ReviewPrompt];
    assert body + (note + [ReviewPrompt]) == (body + note) + [ReviewPrompt];
    ConcatAppend(body + note, [ReviewPrompt]);
    ConcatCons(ReviewPrompt, []);
  }

  /** A non-empty truncation note is a quoted line right after the diffs
      (and before the prompt); an empty or missing one adds nothing. */
  lemma NoteAfterDiffs(title: string, repoName: string, targetLabel: string, summary: string,
                       diffText: string, files: seq<FileChunk>, commitsMd: Option<string>,
                       truncatedNote: Option<string>, generated: string)
    ensures Truthy(truncatedNote) ==>
      Render(title, repoName, targetLabel, summary, diffText, files, commitsMd, false, truncatedNote, generated)
      == Render(title, repoName, targetLabel, summary, diffText, files, commitsMd, false, None, generated)
         + ("\n> " + truncatedNote.value + "\n")
    ensures !Truthy(truncatedNote) ==>
      Render(title, repoName, targetLabel, summary, diffText, files, commitsMd, false, truncatedNote, generated)
      == Render(title, repoName, targetLabel, summary, diffText, files, commitsMd, false, None, generated)
  {
    var body := HeadParts(title, repoName, targetLabel, summary, commitsMd, generated) + DiffParts(diffText, files);
    assert TailParts(None, false) == [];
    assert body + [] == body;
    if Truthy(truncatedNote) {
      var line := "\n> " + truncatedNote.value + "\n";
      assert TailParts(truncatedNote, false) == [line];
      ConcatAppend(body, [line]);
      ConcatCons(line, []);
    } else {
      assert TailParts(truncatedNote, false) == [];
    }
  }

  /** A non-empty commit list is rendered under its own heading; an empty or
      missing one leaves the document as if there were none. */
  lemma CommitsSection(title: string, repoName: string, targetLabel: string, summary: string,
                       diffText: string, files: seq<FileChunk>, commitsMd: Option<string>, prompt: bool,
                       truncatedNote: Option<string>, generated: string)
    ensures Truthy(commitsMd) ==>
      Contains(Render(title, repoName, targetLabel, summary, diffText, files, commitsMd, prompt, truncatedNote, generated),
               "\n## Commits\n" + (commitsMd.value + "\n"))
    ensures !Truthy(commitsMd) ==>
      Render(title, repoName, targetLabel, summary, diffText, files, commitsMd, prompt, truncatedNote, generated)
      == Render(title, repoName, targetLabel, summary, diffText, files, None, prompt, truncatedNote, generated)
  {
    if Truthy(commitsMd) {
      var head := HeadParts(title, repoName, targetLabel, summary, commitsMd, generated);
      var first := head[..2];
      var mid := ["\n## Commits\n", commitsMd.value + "\n"];
      var rest := head[4..] + DiffParts(diffText, files) + TailParts(truncatedNote, prompt);
      assert head == first + mid + head[4..];
      assert head + DiffParts(diffText, files) + TailParts(truncatedNote, prompt) == first + mid + rest;
      ConcatSplit(first, mid, rest);
      ConcatPair(mid[0], mid[1]);
      ContainsMiddle(Concat(first), "\n## Commits\n" + (commitsMd.value + "\n"), Concat(rest));
    } else {
      assert HeadParts(title, repoName, targetLabel, summary, commitsMd, generated)
          == HeadParts(title, repoName, targetLabel, summary, None, generated);
    }
  }

  lemma {:induction false} FileSectionsIn(files: seq<FileChunk>, i: nat)
    requires i < |files|
    ensures Contains(Concat(FileParts(files)), FileSection(files[i]))
  {
    var pre, f, post := files[..i], files[i], files[i + 1..];
    assert files == pre + [f] + post;
    FilePartsAppend(pre + [f], post);
    FilePartsAppend(pre, [f]);
    assert FileParts([f]) == SectionParts(f);
    ConcatSplit(FileParts(pre), SectionParts(f), FileParts(post));
    SectionText(f);
    ContainsMiddle(Concat(FileParts(pre)), FileSection(f), Concat(FileParts(post)));
  }

  /** Every file chunk gets its own section in the document: a `diff` line,
      the file name, and its content (trailing whitespace removed) in a
      fenced `diff` block. */
  lemma EveryFileRendered(title: string, repoName: string, targetLabel: string, summary: string,
                          diffText: string, files: seq<FileChunk>, commitsMd: Option<string>, prompt: bool,
                          truncatedNote: Option<string>, generated: string, i: nat)
    requires i < |files|
    ensures Contains(Render(title, repoName, targetLabel, summary, diffText, files, commitsMd, prompt, truncatedNote, generated),
                     FileSection(files[i]))
  {
    var head := HeadParts(title, repoName, targetLabel, summary, commitsMd, generated);
    var tail := TailParts(truncatedNote, prompt);
    assert DiffParts(diffText, files) == FileParts(files);
    FileSectionsIn(files, i);
    ConcatSplit(head, FileParts(files), tail);
    ContainsWithin(FileSection(files[i]), Concat(FileParts(files)), Concat(head), Concat(tail));
  }

  /** The file sections one after the other, in chunk order. */
  function Sections(files: seq<FileChunk>): string
  {
    if files == [] then "" else FileSection(files[0]) + Sections(files[1..])
  }

  lemma {:induction false} FilePartsText(files: seq<FileChunk>)
    ensures Concat(FileParts(files)) == Sections(files)
  {
    if files != [] {
      FilePartsText(files[1..]);
      ConcatAppend(SectionParts(files[0]), FileParts(files[1..]));
      SectionText(files[0]);
    }
  }

  /** With file chunks, the diff part of the document is exactly their
      sections in the order the splitter returned them, between the head and
      the tail. */
  lemma SectionsInOrder(title: string, repoName: string, targetLabel: string, summary: string,
                        diffText: string, files: seq<FileChunk>, commitsMd: Option<string>, prompt: bool,
                        truncatedNote: Option<string>, generated: string)
    requires files != []
    ensures Render(title, repoName, targetLabel, summary, diffText, files, commitsMd, prompt, truncatedNote, generated)
         == Concat(HeadParts(title, repoName, targetLabel, summary, commitsMd, generated)) + Sections(files)
            + Concat(TailParts(truncatedNote, prompt))
  {
    var head := HeadParts(title, repoName, targetLabel, summary, commitsMd, generated);
    var tail := TailParts(truncatedNote, prompt);
    assert DiffParts(diffText, files) == FileParts(files);
    ConcatSplit(head, FileParts(files), tail);
    FilePartsText(files);
  }

  /** With no file chunk the whole diff, trailing whitespace removed, is
      shown in a single fenced block. */
  lemma FallbackBlock(title: string, repoName: string, targetLabel: string, summary: string,
                      diffText: string, commitsMd: Option<string>, prompt: bool,
                      truncatedNote: Option<string>, generated: string)
    ensures Contains(Render(title, repoName, targetLabel, summary, diffText, [], commitsMd, prompt, truncatedNote, generated),
                     "```diff\n" + (RStrip(diffText) + "\n") + "```\n")
  {
    var head := HeadParts(title, repoName, targetLabel, summary, commitsMd, generated);
    var block := ["```diff\n", RStrip(diffText) + "\n", "```\n"];
    var tail := TailParts(truncatedNote, prompt);
    assert DiffParts(diffText, []) == block;
    ConcatSplit(head, block, tail);
    ConcatTriple(block[0], block[1], block[2]);
    ContainsMiddle(Concat(head), "```diff\n" + (RStrip(diffText) + "\n") + "```\n", Concat(tail));
  }

  /** A diff with no line outside marker lines (the empty diff among them)
      has no file chunk, so the document takes the single-block form. */
  lemma MarkdownFallback(title: string, repoName: string, targetLabel: string, summary: string,
                         diffText: string, commitsMd: Option<string>, prompt: bool,
                         truncatedNote: Option<string>, generated: string)
    requires RemoveMarkers(Lines(diffText)) == []
    ensures Markdown(title, repoName, targetLabel, summary, diffText, commitsMd, prompt, truncatedNote, generated)
         == Render(title, repoName, targetLabel, summary, diffText, [], commitsMd, prompt, truncatedNote, generated)
  {
    ChunksEmpty(Lines(diffText));
  }
}
