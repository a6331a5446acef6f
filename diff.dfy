/**
 * Splitting a unified diff into per-file chunks (`split_diff_by_file`) and
 * naming each chunk (`infer_filename`, `strip_prefix`).
 *
 * Both operations loop over lines in the source; they are methods here,
 * proved against the specification functions `Chunks` and `FilenameOf`,
 * about which the lemmas below state what the splitter promises.
 */
module Diff {
  import opened Wrappers
  import opened Text

  /** One `(filename, chunk_text)` pair of the splitter's result. */
  datatype FileChunk = FileChunk(filename: string, content: string)

  const UnknownFile := "(unknown file)"

  /** A line that starts a new file section. */
  predicate IsMarker(line: string)
  {
    StartsWith(line, "diff --git ")
  }

  /** Python truthiness of an optional string: neither `None` nor empty. */
  predicate Truthy(o: Option<string>)
  {
    o.Some? && o.value != ""
  }

  // ---------------------------------------------------------------------
  // strip_prefix

  /** `strip_prefix`: drops a leading `a/` or `b/`, once. */
  function StripPrefix(path: string): (r: string)
    ensures (StartsWith(path, "a/") || StartsWith(path, "b/")) ==> path == path[..2] + r
    ensures !(StartsWith(path, "a/") || StartsWith(path, "b/")) ==> r == path
  {
    if StartsWith(path, "a/") || StartsWith(path, "b/") then
      assert path == path[..2] + path[2..];
      path[2..]
    else path
  }

  /** Adding either tree prefix and stripping it is the identity. */
  lemma StripPrefixOf(q: string)
    ensures StripPrefix("a/" + q) == q && StripPrefix("b/" + q) == q
  {
    assert ("a/" + q)[..2] == "a/" && ("a/" + q)[2..] == q;
    assert ("b/" + q)[..2] == "b/" && ("b/" + q)[2..] == q;
  }

  // ---------------------------------------------------------------------
  // infer_filename: the specification

  /** `ln[4:].strip()`. */
  function PathOf(line: string): string
    requires |line| >= 4
  {
    Strip(line[4..])
  }

  /** A `+++ ` or `--- ` line whose path is not `/dev/null`. */
  predicate IsPathLine(line: string, tag: string)
  {
    |tag| == 4 && StartsWith(line, tag) && PathOf(line) != "/dev/null"
  }

  /** The path of the first line that `IsPathLine` accepts. */
  function FirstPath(lines: seq<string>, tag: string): Option<string>
  {
    if lines == [] then None
    else if IsPathLine(lines[0], tag) then Some(PathOf(lines[0]))
    else FirstPath(lines[1..], tag)
  }

  /** The first accepted line, found by index, gives `FirstPath`. */
  lemma {:induction false} FirstPathAt(lines: seq<string>, tag: string, i: nat)
    requires i < |lines| && IsPathLine(lines[i], tag)
    requires forall j :: 0 <= j < i ==> !IsPathLine(lines[j], tag)
    ensures FirstPath(lines, tag) == Some(PathOf(lines[i]))
  {
    if i > 0 {
      assert !IsPathLine(lines[0], tag);
      FirstPathAt(lines[1..], tag, i - 1);
    }
  }

  /** With no accepted line, `FirstPath` is `None`. */
  lemma {:induction false} FirstPathNone(lines: seq<string>, tag: string)
    requires forall j :: 0 <= j < |lines| ==> !IsPathLine(lines[j], tag)
    ensures FirstPath(lines, tag) == None
  {
    if lines != [] {
      assert !IsPathLine(lines[0], tag);
      FirstPathNone(lines[1..], tag);
    }
  }

  /** Conversely, a `FirstPath` result comes from the first accepted line. */
  lemma {:induction false} FirstPathIndex(lines: seq<string>, tag: string) returns (i: nat)
    requires FirstPath(lines, tag).Some?
    ensures i < |lines| && IsPathLine(lines[i], tag)
    ensures FirstPath(lines, tag) == Some(PathOf(lines[i]))
    ensures forall j :: 0 <= j < i ==> !IsPathLine(lines[j], tag)
  {
    if IsPathLine(lines[0], tag) {
      i := 0;
    } else {
      var k := FirstPathIndex(lines[1..], tag);
      i := k + 1;
      assert lines[1..][k] == lines[i];
      forall j | 0 < j < i ensures !IsPathLine(lines[j], tag) {
        assert lines[1..][j - 1] == lines[j];
      }
    }
  }

  /** The name a path line section offers; "" stands for "nothing". */
  function Candidate(lines: seq<string>, tag: string): string
  {
    match FirstPath(lines, tag)
    case None => ""
    case Some(p) => StripPrefix(p)
  }

  /** `strip_prefix(parts[3])` of a `diff --git` header with four tokens. */
  function HeaderCandidate(header: Option<string>): string
  {
    match header
    case None => ""
    case Some(h) =>
      if h != "" && IsMarker(h) then
        var parts := Words(h);
        if |parts| >= 4 then StripPrefix(parts[3]) else ""
      else ""
  }

  /** What `infer_filename` returns: the `+++ ` path, else the `--- ` path,
      else the fourth header token, else the placeholder. */
  function FilenameOf(header: Option<string>, lines: seq<string>): (r: string)
    ensures r != ""
  {
    var plus := Candidate(lines, "+++ ");
    if plus != "" then plus
    else
      var minus := Candidate(lines, "--- ");
      if minus != "" then minus
      else
        var fromHeader := HeaderCandidate(header);
        if fromHeader != "" then fromHeader else UnknownFile
  }

  /** The first `+++ ` path that is not `/dev/null` names the file. */
  lemma NewPathWins(header: Option<string>, lines: seq<string>, i: nat)
    requires i < |lines| && IsPathLine(lines[i], "+++ ")
    requires forall j :: 0 <= j < i ==> !IsPathLine(lines[j], "+++ ")
    requires StripPrefix(PathOf(lines[i])) != ""
    ensures FilenameOf(header, lines) == StripPrefix(PathOf(lines[i]))
  {
    FirstPathAt(lines, "+++ ", i);
  }

  /** The `tag` lines give no name: either none is accepted, or the first
      accepted one has a path that strips to "" (`if not filename`). */
  predicate NamesNothing(lines: seq<string>, tag: string)
  {
    forall i :: 0 <= i < |lines| && IsPathLine(lines[i], tag)
      && (forall j :: 0 <= j < i ==> !IsPathLine(lines[j], tag))
      ==> StripPrefix(PathOf(lines[i])) == ""
  }

  /** Such lines leave the candidate empty. */
  lemma NamesNothingCandidate(lines: seq<string>, tag: string)
    requires NamesNothing(lines, tag)
    ensures Candidate(lines, tag) == ""
  {
    if FirstPath(lines, tag).Some? {
      var i := FirstPathIndex(lines, tag);
    }
  }

  /** When the `+++ ` lines name nothing, the first usable `--- ` path
      names the file. */
  lemma OldPathFallback(header: Option<string>, lines: seq<string>, i: nat)
    requires NamesNothing(lines, "+++ ")
    requires i < |lines| && IsPathLine(lines[i], "--- ")
    requires forall j :: 0 <= j < i ==> !IsPathLine(lines[j], "--- ")
    requires StripPrefix(PathOf(lines[i])) != ""
    ensures FilenameOf(header, lines) == StripPrefix(PathOf(lines[i]))
  {
    NamesNothingCandidate(lines, "+++ ");
    FirstPathAt(lines, "--- ", i);
  }

  /** When neither kind of line names anything, the fourth token of the
      header does. */
  lemma HeaderFallback(h: string, lines: seq<string>)
    requires NamesNothing(lines, "+++ ") && NamesNothing(lines, "--- ")
    requires IsMarker(h) && |Words(h)| >= 4 && StripPrefix(Words(h)[3]) != ""
    ensures FilenameOf(Some(h), lines) == StripPrefix(Words(h)[3])
  {
    NamesNothingCandidate(lines, "+++ ");
    NamesNothingCandidate(lines, "--- ");
  }

  /** And when the header gives nothing either, the placeholder. */
  lemma UnknownFallback(header: Option<string>, lines: seq<string>)
    requires NamesNothing(lines, "+++ ") && NamesNothing(lines, "--- ")
    requires header.None? || !IsMarker(header.value) || |Words(header.value)| < 4
      || StripPrefix(Words(header.value)[3]) == ""
    ensures FilenameOf(header, lines) == UnknownFile
  {
    NamesNothingCandidate(lines, "+++ ");
    NamesNothingCandidate(lines, "--- ");
  }

  /** A trimmed path behind a tag is read back unchanged. */
  lemma PathOfTagged(tag: string, p: string)
    requires |tag| == 4 && p != [] && !IsSpace(p[0]) && !IsSpace(p[|p| - 1])
    ensures StartsWith(tag + p, tag) && PathOf(tag + p) == p
  {
    assert (tag + p)[..4] == tag;
    assert (tag + p)[4..] == p;
    StripOfTrimmed(p);
  }

  /** A line that does not begin with the tag's first character is not a
      path line for it. */
  lemma NotTagged(line: string, tag: string)
    requires line != [] && tag != [] && line[0] != tag[0]
    ensures !IsPathLine(line, tag)
  {
    if |tag| <= |line| {
      assert line[..|tag|][0] == line[0];
    }
  }

  /** `tag a/p` (or `tag b/p`) is a path line for `tag`, with path `x/p`. */
  lemma PrefixedPathLine(tag: string, x: char, p: string)
    requires |tag| == 4 && (x == 'a' || x == 'b')
    requires p != [] && !IsSpace(p[0]) && !IsSpace(p[|p| - 1])
    ensures IsPathLine(tag + ([x, '/'] + p), tag)
    ensures StripPrefix(PathOf(tag + ([x, '/'] + p))) == p
  {
    var q := [x, '/'] + p;
    assert q[0] == x && q[|q| - 1] == p[|p| - 1];
    PathOfTagged(tag, q);
    assert q != "/dev/null" by { assert "/dev/null"[0] == '/'; }
    assert q[..2] == [x, '/'] && q[2..] == p;
  }

  /** A modified file (`--- a/p`, `+++ b/p`) is named `p`. */
  lemma ModifiedFileName(header: Option<string>, p: string, hunks: seq<string>)
    requires p != [] && !IsSpace(p[0]) && !IsSpace(p[|p| - 1])
    ensures FilenameOf(header, ["--- a/" + p, "+++ b/" + p] + hunks) == p
  {
    var oldLine, newLine := "--- " + (['a', '/'] + p), "+++ " + (['b', '/'] + p);
    assert oldLine == "--- a/" + p && newLine == "+++ b/" + p;
    var lines := [oldLine, newLine] + hunks;
    PrefixedPathLine("+++ ", 'b', p);
    NotTagged(oldLine, "+++ ");
    NewPathWins(header, lines, 1);
  }

  /** `+++ /dev/null` names no file. */
  lemma DevNullIsNoPath()
    ensures !IsPathLine("+++ /dev/null", "+++ ")
  {
    assert "+++ /dev/null" == "+++ " + "/dev/null";
    PathOfTagged("+++ ", "/dev/null");
  }

  lemma NoNewPathIn(l0: string, l1: string, hunks: seq<string>)
    requires !IsPathLine(l0, "+++ ") && !IsPathLine(l1, "+++ ")
    requires forall j :: 0 <= j < |hunks| ==> !StartsWith(hunks[j], "+++ ")
    ensures forall j :: 0 <= j < |[l0, l1] + hunks| ==> !IsPathLine(([l0, l1] + hunks)[j], "+++ ")
  {
    var lines := [l0, l1] + hunks;
    forall j | 0 <= j < |lines| ensures !IsPathLine(lines[j], "+++ ") {
      if j >= 2 {
        assert lines[j] == hunks[j - 2];
      }
    }
  }

  /** A deleted file (`+++ /dev/null`) is named after its `--- a/p` line. */
  lemma DeletedFileName(header: Option<string>, p: string, hunks: seq<string>)
    requires p != [] && !IsSpace(p[0]) && !IsSpace(p[|p| - 1])
    requires forall j :: 0 <= j < |hunks| ==> !StartsWith(hunks[j], "+++ ")
    ensures FilenameOf(header, ["--- a/" + p, "+++ /dev/null"] + hunks) == p
  {
    var oldLine := "--- " + (['a', '/'] + p);
    assert oldLine == "--- a/" + p;
    var lines := [oldLine, "+++ /dev/null"] + hunks;
    PrefixedPathLine("--- ", 'a', p);
    NotTagged(oldLine, "+++ ");
    DevNullIsNoPath();
    NoNewPathIn(oldLine, "+++ /dev/null", hunks);
    OldPathFallback(header, lines, 0);
  }

  // ---------------------------------------------------------------------
  // infer_filename: the method

  /** The first path of a `tag` line that is not `/dev/null`, prefix
      stripped, as the source's `for ... break` loop finds it. */
  method ScanPaths(lines: seq<string>, tag: string) returns (found: Option<string>)
    requires |tag| == 4
    ensures found == (match FirstPath(lines, tag) case None => None case Some(p) => Some(StripPrefix(p)))
  {
    found := None;
    var i := 0;
    while i < |lines|
      invariant 0 <= i <= |lines|
      invariant found == None
      invariant FirstPath(lines[i..], tag) == FirstPath(lines, tag)
    {
      assert lines[i..][1..] == lines[i + 1..];
      if StartsWith(lines[i], tag) {
        var path := Strip(lines[i][4..]);
        if path != "/dev/null" {
          found := Some(StripPrefix(path));
          break;
        }
      }
      i := i + 1;
    }
  }

  /** `infer_filename(header_line, chunk_lines)`. */
  method InferFilename(header: Option<string>, lines: seq<string>) returns (name: string)
    ensures name == FilenameOf(header, lines)
  {
    var filename := ScanPaths(lines, "+++ ");
    if !Truthy(filename) {
      filename := ScanPaths(lines, "--- ");
    }
    if !Truthy(filename) && header.Some? && header.value != "" && IsMarker(header.value) {
      var parts := Words(header.value);
      if |parts| >= 4 {
        filename := Some(StripPrefix(parts[3]));
      }
    }
    name := if Truthy(filename) then filename.value else UnknownFile;
  }

  // ---------------------------------------------------------------------
  // split_diff_by_file: the specification

  /** The lines between two markers, and the marker above them (`None` for
      the preamble before the first marker). */
  datatype Segment = Segment(header: Option<string>, body: seq<string>)

  predicate NoMarkers(lines: seq<string>)
  {
    forall j :: 0 <= j < |lines| ==> !IsMarker(lines[j])
  }

  /** Index of the first marker line, or `|lines|`. */
  function NextMarker(lines: seq<string>): (k: nat)
    ensures k <= |lines|
    ensures forall j :: 0 <= j < k ==> !IsMarker(lines[j])
    ensures k < |lines| ==> IsMarker(lines[k])
  {
    if lines == [] || IsMarker(lines[0]) then 0
    else
      var k := NextMarker(lines[1..]);
      assert forall j :: 1 <= j < k + 1 ==> lines[j] == lines[1..][j - 1];
      k + 1
  }

  /** Every segment of `lines` read under header `h`, empty ones included:
      one before the first marker and one after each marker. */
  function SegmentsFrom(h: Option<string>, lines: seq<string>): (r: seq<Segment>)
    ensures r != []
    decreases |lines|
  {
    var k := NextMarker(lines);
    [Segment(h, lines[..k])] + (if k < |lines| then SegmentsFrom(Some(lines[k]), lines[k + 1..]) else [])
  }

  /** The segments that hold at least one line. */
  function NonEmpty(segs: seq<Segment>): (r: seq<Segment>)
    ensures |r| <= |segs|
    ensures forall i :: 0 <= i < |r| ==> r[i].body != []
  {
    if segs == [] then []
    else if segs[0].body == [] then NonEmpty(segs[1..])
    else [segs[0]] + NonEmpty(segs[1..])
  }

  /** The chunks `split_diff_by_file` emits, before naming. */
  function Chunks(lines: seq<string>): seq<Segment>
  {
    NonEmpty(SegmentsFrom(None, lines))
  }

  function ToFileChunk(seg: Segment): FileChunk
  {
    FileChunk(FilenameOf(seg.header, seg.body), Join("\n", seg.body))
  }

  function ToFileChunks(segs: seq<Segment>): (r: seq<FileChunk>)
    ensures |r| == |segs|
  {
    if segs == [] then [] else [ToFileChunk(segs[0])] + ToFileChunks(segs[1..])
  }

  /** `NextMarker` is pinned down by its contract. */
  lemma NextMarkerIs(lines: seq<string>, n: nat)
    requires n <= |lines|
    requires forall j :: 0 <= j < n ==> !IsMarker(lines[j])
    requires n < |lines| ==> IsMarker(lines[n])
    ensures NextMarker(lines) == n
  {
    var k := NextMarker(lines);
    if k < n {
      assert false;
    } else if k > n {
      assert false;
    }
  }

  /** Reading on from a marker: the lines so far close their segment. */
  lemma SegmentsAtMarker(h: Option<string>, current: seq<string>, rest: seq<string>)
    requires NoMarkers(current) && rest != [] && IsMarker(rest[0])
    ensures SegmentsFrom(h, current + rest) == [Segment(h, current)] + SegmentsFrom(Some(rest[0]), rest[1..])
  {
    var lines := current + rest;
    assert lines[|current|] == rest[0];
    assert forall j :: 0 <= j < |current| ==> lines[j] == current[j];
    NextMarkerIs(lines, |current|);
    var k := |current|;
    assert lines[..k] == current;
    assert lines[k + 1..] == rest[1..];
    calc {
      SegmentsFrom(h, lines);
      [Segment(h, lines[..k])] + SegmentsFrom(Some(lines[k]), lines[k + 1..]);
      { assert Segment(h, lines[..k]) == Segment(h, current); }
      [Segment(h, current)] + SegmentsFrom(Some(rest[0]), rest[1..]);
    }
  }

  /** At the end of input the lines so far form the last segment. */
  lemma SegmentsAtEnd(h: Option<string>, current: seq<string>)
    requires NoMarkers(current)
    ensures SegmentsFrom(h, current) == [Segment(h, current)]
  {
    var k := NextMarker(current);
    assert current[..k] == current;
  }

  // ---------------------------------------------------------------------
  // split_diff_by_file: the method

  lemma NonEmptyCons(seg: Segment, segs: seq<Segment>)
    ensures NonEmpty([seg] + segs) == (if seg.body == [] then [] else [seg]) + NonEmpty(segs)
  {
    assert ([seg] + segs)[1..] == segs;
  }

  /** The loop's step at a marker line: the pending segment, if it holds
      lines, is emitted, and reading resumes under the marker. */
  lemma MarkerStep(h: Option<string>, current: seq<string>, rest: seq<string>)
    requires NoMarkers(current) && rest != [] && IsMarker(rest[0])
    ensures NonEmpty(SegmentsFrom(h, current + rest))
         == (if current == [] then [] else [Segment(h, current)]) + NonEmpty(SegmentsFrom(Some(rest[0]), rest[1..]))
  {
    SegmentsAtMarker(h, current, rest);
    NonEmptyCons(Segment(h, current), SegmentsFrom(Some(rest[0]), rest[1..]));
  }

  /** The loop's step at any other line: it joins the pending segment. */
  lemma LineStep(current: seq<string>, rest: seq<string>)
    requires NoMarkers(current) && rest != [] && !IsMarker(rest[0])
    ensures NoMarkers(current + [rest[0]])
    ensures current + rest == (current + [rest[0]]) + rest[1..]
  {
    assert forall j :: 0 <= j < |current| ==> (current + [rest[0]])[j] == current[j];
  }

  /** Regrouping the segments emitted so far, kept out of the loop's proof. */
  lemma AppendAssoc<T>(a: seq<T>, b: seq<T>, c: seq<T>)
    ensures a + (b + c) == (a + b) + c
  {
  }

  /** The loop's exit: the pending segment, if it holds lines, is the last. */
  lemma EndStep(h: Option<string>, current: seq<string>)
    requires NoMarkers(current)
    ensures NonEmpty(SegmentsFrom(h, current)) == Emit(h, current)
  {
    SegmentsAtEnd(h, current);
    NonEmptyCons(Segment(h, current), []);
  }

  /** The pending segment as the loop emits it: only when it holds lines. */
  function Emit(h: Option<string>, current: seq<string>): (r: seq<Segment>)
    ensures |r| <= 1
  {
    if current == [] then [] else [Segment(h, current)]
  }

  /** The loop of `split_diff_by_file` read line by line: `current` holds the
      lines since the last marker `h`, and `rest` what is still unread. */
  function Scan(h: Option<string>, current: seq<string>, rest: seq<string>): seq<Segment>
    decreases |rest|
  {
    if rest == [] then Emit(h, current)
    else if IsMarker(rest[0]) then Emit(h, current) + Scan(Some(rest[0]), [], rest[1..])
    else Scan(h, current + [rest[0]], rest[1..])
  }

  lemma ScanStep(h: Option<string>, current: seq<string>, lines: seq<string>, i: nat)
    requires i < |lines|
    ensures Scan(h, current, lines[i..])
         == if IsMarker(lines[i]) then Emit(h, current) + Scan(Some(lines[i]), [], lines[i + 1..])
            else Scan(h, current + [lines[i]], lines[i + 1..])
  {
    assert lines[i..][0] == lines[i];
    assert lines[i..][1..] == lines[i + 1..];
  }

  /** The line-by-line reading agrees with the segment-based one. */
  lemma {:induction false} ScanIsChunks(h: Option<string>, current: seq<string>, rest: seq<string>)
    requires NoMarkers(current)
    ensures Scan(h, current, rest) == NonEmpty(SegmentsFrom(h, current + rest))
    decreases |rest|
  {
    if rest == [] {
      assert current + rest == current;
      EndStep(h, current);
    } else if IsMarker(rest[0]) {
      MarkerStep(h, current, rest);
      ScanIsChunks(Some(rest[0]), [], rest[1..]);
      assert [] + rest[1..] == rest[1..];
    } else {
      LineStep(current, rest);
      ScanIsChunks(h, current + [rest[0]], rest[1..]);
    }
  }

  lemma ToFileChunksAppend(segs: seq<Segment>, h: Option<string>, body: seq<string>)
    ensures ToFileChunks(segs + [Segment(h, body)])
         == ToFileChunks(segs) + [FileChunk(FilenameOf(h, body), Join("\n", body))]
  {
    if segs != [] {
      assert (segs + [Segment(h, body)])[1..] == segs[1..] + [Segment(h, body)];
      ToFileChunksAppend(segs[1..], h, body);
    }
  }

  /** Emitting the pending segment adds its named chunk, if any. */
  lemma EmitChunks(done: seq<Segment>, h: Option<string>, current: seq<string>)
    ensures ToFileChunks(done + Emit(h, current))
         == ToFileChunks(done) + (if current == [] then [] else [FileChunk(FilenameOf(h, current), Join("\n", current))])
  {
    if current == [] {
      assert done + [] == done;
    } else {
      ToFileChunksAppend(done, h, current);
    }
  }

  /** `split_diff_by_file(diff_text)`: the text is split into lines, which
      are then grouped into chunks. */
  method SplitDiffByFile(diffText: string) returns (files: seq<FileChunk>)
    ensures files == ToFileChunks(Chunks(Lines(diffText)))
  {
    files := SplitLinesByFile(Lines(diffText));
  }

  /** The loop of `split_diff_by_file` over the lines of the diff. */
  method SplitLinesByFile(lines: seq<string>) returns (files: seq<FileChunk>)
    ensures files == ToFileChunks(Chunks(lines))
  {
    files := [];
    var current: seq<string> := [];
    var header: Option<string> := None;
    ghost var done: seq<Segment> := [];
    assert lines[0..] == lines;
    for i := 0 to |lines|
      invariant Scan(None, [], lines) == done + Scan(header, current, lines[i..])
      invariant files == ToFileChunks(done)
    {
      var line := lines[i];
      ScanStep(header, current, lines, i);
      if IsMarker(line) {
        EmitChunks(done, header, current);
        if current != [] {
          var name := InferFilename(header, current);
          files := files + [FileChunk(name, Join("\n", current))];
        }
        AppendAssoc(done, Emit(header, current), Scan(Some(line), [], lines[i + 1..]));
        done := done + Emit(header, current);
        current := [];
        header := Some(line);
      } else {
        // The preamble before the first marker is collected the same way.
        current := current + [line];
      }
    }
    assert Scan(header, current, lines[|lines|..]) == Emit(header, current);
    EmitChunks(done, header, current);
    if current != [] {
      var name := InferFilename(header, current);
      files := files + [FileChunk(name, Join("\n", current))];
    }
    done := done + Emit(header, current);
    ScanIsChunks(None, [], lines);
    assert [] + lines == lines;
  }

  // ---------------------------------------------------------------------
  // What split_diff_by_file promises

  /** The input lines with every marker line removed. */
  function RemoveMarkers(lines: seq<string>): (r: seq<string>)
    ensures |r| <= |lines|
  {
    if lines == [] then []
    else (if IsMarker(lines[0]) then [] else [lines[0]]) + RemoveMarkers(lines[1..])
  }

  /** The number of marker lines. */
  function MarkerCount(lines: seq<string>): nat
  {
    if lines == [] then 0 else (if IsMarker(lines[0]) then 1 else 0) + MarkerCount(lines[1..])
  }

  /** The body lines of the segments, in order. */
  function Flatten(segs: seq<Segment>): seq<string>
  {
    if segs == [] then [] else segs[0].body + Flatten(segs[1..])
  }

  function Contents(files: seq<FileChunk>): (r: seq<string>)
    ensures |r| == |files|
    ensures forall i :: 0 <= i < |files| ==> r[i] == files[i].content
  {
    if files == [] then [] else [files[0].content] + Contents(files[1..])
  }

  lemma {:induction false} RemoveMarkersAppend(a: seq<string>, b: seq<string>)
    ensures RemoveMarkers(a + b) == RemoveMarkers(a) + RemoveMarkers(b)
  {
    if a == [] {
      assert a + b == b;
    } else {
      var x := a[0];
      assert (a + b)[0] == x;
      assert (a + b)[1..] == a[1..] + b;
      RemoveMarkersAppend(a[1..], b);
      var y := if IsMarker(x) then [] else [x];
      assert RemoveMarkers(a + b) == y + RemoveMarkers(a[1..] + b);
      assert RemoveMarkers(a) == y + RemoveMarkers(a[1..]);
    }
  }

  lemma {:induction false} MarkerCountAppend(a: seq<string>, b: seq<string>)
    ensures MarkerCount(a + b) == MarkerCount(a) + MarkerCount(b)
  {
    if a == [] {
      assert a + b == b;
    } else {
      assert (a + b)[0] == a[0];
      assert (a + b)[1..] == a[1..] + b;
      MarkerCountAppend(a[1..], b);
    }
  }

  lemma {:induction false} RemoveMarkersNone(lines: seq<string>)
    requires NoMarkers(lines)
    ensures RemoveMarkers(lines) == lines && MarkerCount(lines) == 0
  {
    if lines != [] {
      RemoveMarkersNone(lines[1..]);
    }
  }

  /** Dropping empty segments drops no line. */
  lemma {:induction false} FlattenNonEmpty(segs: seq<Segment>)
    ensures Flatten(NonEmpty(segs)) == Flatten(segs)
  {
    if segs != [] {
      FlattenNonEmpty(segs[1..]);
      if segs[0].body != [] {
        assert NonEmpty(segs) == [segs[0]] + NonEmpty(segs[1..]);
        assert ([segs[0]] + NonEmpty(segs[1..]))[1..] == NonEmpty(segs[1..]);
      }
    }
  }

  /** Lines without markers, a marker, then the rest: the marker is dropped
      and counted once. */
  lemma MarkerHead(m: string, post: seq<string>)
    requires IsMarker(m)
    ensures RemoveMarkers([m] + post) == RemoveMarkers(post)
    ensures MarkerCount([m] + post) == 1 + MarkerCount(post)
  {
    assert ([m] + post)[0] == m && ([m] + post)[1..] == post;
  }

  lemma MarkerSplit(pre: seq<string>, m: string, post: seq<string>)
    requires NoMarkers(pre) && IsMarker(m)
    ensures RemoveMarkers(pre + [m] + post) == pre + RemoveMarkers(post)
    ensures MarkerCount(pre + [m] + post) == 1 + MarkerCount(post)
  {
    var tail := [m] + post;
    assert pre + [m] + post == pre + tail;
    RemoveMarkersAppend(pre, tail);
    MarkerCountAppend(pre, tail);
    RemoveMarkersNone(pre);
    MarkerHead(m, post);
  }

  /** Segmenting keeps every line but the markers, and makes one segment
      per marker plus the one before the first. */
  lemma {:induction false} SegmentsKeepLines(h: Option<string>, lines: seq<string>)
    ensures Flatten(SegmentsFrom(h, lines)) == RemoveMarkers(lines)
    ensures |SegmentsFrom(h, lines)| == MarkerCount(lines) + 1
    decreases |lines|
  {
    var k := NextMarker(lines);
    assert NoMarkers(lines[..k]) by {
      assert forall j :: 0 <= j < k ==> lines[..k][j] == lines[j];
    }
    if k < |lines| {
      assert lines == lines[..k] + [lines[k]] + lines[k + 1..];
      MarkerSplit(lines[..k], lines[k], lines[k + 1..]);
    } else {
      assert lines[..k] == lines;
      RemoveMarkersNone(lines);
    }
    var segs := SegmentsFrom(h, lines);
    var tail := if k < |lines| then SegmentsFrom(Some(lines[k]), lines[k + 1..]) else [];
    assert segs == [Segment(h, lines[..k])] + tail;
    assert segs[1..] == tail;
    if k < |lines| {
      SegmentsKeepLines(Some(lines[k]), lines[k + 1..]);
    }
  }

  /** Concatenating the chunks' lines, in order, gives exactly the input
      lines without the marker lines. */
  lemma ChunksKeepLines(lines: seq<string>)
    ensures Flatten(Chunks(lines)) == RemoveMarkers(lines)
  {
    FlattenNonEmpty(SegmentsFrom(None, lines));
    SegmentsKeepLines(None, lines);
  }

  /** No chunk is empty, and there are at most one more chunks than markers. */
  lemma ChunksCount(lines: seq<string>)
    ensures forall i :: 0 <= i < |Chunks(lines)| ==> Chunks(lines)[i].body != []
    ensures |Chunks(lines)| <= MarkerCount(lines) + 1
  {
    SegmentsKeepLines(None, lines);
  }

  /** There are no chunks exactly when every line is a marker. */
  lemma ChunksEmpty(lines: seq<string>)
    ensures Chunks(lines) == [] <==> RemoveMarkers(lines) == []
  {
    ChunksKeepLines(lines);
    ChunksCount(lines);
    if Chunks(lines) != [] {
      var c := Chunks(lines);
      assert Flatten(c) == c[0].body + Flatten(c[1..]);
    }
  }

  /** A marker followed directly by another marker produces no chunk. */
  lemma MarkerThenMarker(m: string, m2: string, rest: seq<string>)
    requires IsMarker(m2)
    ensures NonEmpty(SegmentsFrom(Some(m), [m2] + rest)) == NonEmpty(SegmentsFrom(Some(m2), rest))
  {
    SegmentsAtMarker(Some(m), [], [m2] + rest);
    assert [] + ([m2] + rest) == [m2] + rest;
    assert ([m2] + rest)[1..] == rest;
    NonEmptyCons(Segment(Some(m), []), SegmentsFrom(Some(m2), rest));
  }

  /** A marker at the end of the input produces no chunk. */
  lemma MarkerAtEnd(m: string)
    ensures NonEmpty(SegmentsFrom(Some(m), [])) == []
  {
    SegmentsAtEnd(Some(m), []);
    NonEmptyCons(Segment(Some(m), []), []);
  }

  /** A marker followed by lines without markers and then by the next marker
      (or the end) yields one chunk headed by it that holds exactly those lines. */
  lemma MarkerThenLines(m: string, body: seq<string>, rest: seq<string>)
    requires body != [] && NoMarkers(body)
    requires rest == [] || IsMarker(rest[0])
    ensures NonEmpty(SegmentsFrom(Some(m), body + rest))
         == [Segment(Some(m), body)] + (if rest == [] then [] else NonEmpty(SegmentsFrom(Some(rest[0]), rest[1..])))
  {
    if rest == [] {
      assert body + rest == body;
      SegmentsAtEnd(Some(m), body);
      NonEmptyCons(Segment(Some(m), body), []);
    } else {
      MarkerStep(Some(m), body, rest);
    }
  }

  lemma {:induction false} JoinFlatten(segs: seq<Segment>)
    requires forall i :: 0 <= i < |segs| ==> segs[i].body != []
    ensures Join("\n", Contents(ToFileChunks(segs))) == Join("\n", Flatten(segs))
  {
    if segs != [] {
      var files := ToFileChunks(segs);
      var rest := segs[1..];
      assert files[1..] == ToFileChunks(rest);
      assert Contents(files) == [files[0].content] + Contents(files[1..]);
      JoinFlatten(rest);
      if rest == [] {
        assert Flatten(segs) == segs[0].body;
      } else {
        assert Flatten(rest) == rest[0].body + Flatten(rest[1..]);
        JoinAppend("\n", [files[0].content], Contents(ToFileChunks(rest)));
        JoinAppend("\n", segs[0].body, Flatten(rest));
      }
    }
  }

  /** Joining the chunks' contents with newlines gives the input lines,
      markers removed, joined with newlines: no content is lost. */
  lemma SplitKeepsContent(diffText: string)
    ensures Join("\n", Contents(ToFileChunks(Chunks(Lines(diffText)))))
         == Join("\n", RemoveMarkers(Lines(diffText)))
  {
    var lines := Lines(diffText);
    ChunksCount(lines);
    JoinFlatten(Chunks(lines));
    ChunksKeepLines(lines);
  }

  lemma NotMarker(line: string)
    requires line != [] && line[0] != 'd'
    ensures !IsMarker(line)
  {
    if |line| >= 11 {
      assert line[..11][0] == line[0];
    }
  }

  /** A marker followed by marker-free lines is one chunk. */
  lemma OneChunk(m: string, body: seq<string>)
    requires IsMarker(m) && body != [] && NoMarkers(body)
    ensures Chunks([m] + body) == [Segment(Some(m), body)]
  {
    var lines := [m] + body;
    assert [] + lines == lines && lines[0] == m && lines[1..] == body;
    MarkerStep(None, [], lines);
    assert body + [] == body;
    MarkerThenLines(m, body, []);
  }

  /** A one-file diff of a modified file splits into exactly one chunk,
      named after the file and holding every line after the marker. */
  lemma ModifiedFileChunk(m: string, p: string, hunks: seq<string>)
    requires IsMarker(m) && NoMarkers(hunks)
    requires p != [] && !IsSpace(p[0]) && !IsSpace(p[|p| - 1])
    ensures ToFileChunks(Chunks([m] + (["--- a/" + p, "+++ b/" + p] + hunks)))
         == [FileChunk(p, Join("\n", ["--- a/" + p, "+++ b/" + p] + hunks))]
  {
    var body := ["--- a/" + p, "+++ b/" + p] + hunks;
    NotMarker(body[0]);
    NotMarker(body[1]);
    assert NoMarkers(body) by {
      assert forall j :: 2 <= j < |body| ==> body[j] == hunks[j - 2];
    }
    OneChunk(m, body);
    ModifiedFileName(Some(m), p, hunks);
    assert ToFileChunks([Segment(Some(m), body)]) == [ToFileChunk(Segment(Some(m), body))];
  }
}
