/**
 * The few Python string operations the formatter relies on, stated over
 * `seq<char>`: `str.isspace`, `strip`/`lstrip`/`rstrip`, whitespace
 * `split()`, `splitlines()` (on '\n' only), `sep.join`, `startswith`,
 * `endswith`, `in` on substrings, `int()` of digits and `str()` of integers.
 */
module Text {

  /** Python's `str.isspace` for a single character. */
  predicate IsSpace(c: char)
  {
    ('\t' <= c <= '\r') || ('\U{1C}' <= c <= '\U{1F}') || c == ' ' ||
    c == '\U{85}' || c == '\U{A0}' || c == '\U{1680}' ||
    ('\U{2000}' <= c <= '\U{200A}') || c == '\U{2028}' || c == '\U{2029}' ||
    c == '\U{202F}' || c == '\U{205F}' || c == '\U{3000}'
  }

  predicate NoSpace(s: string)
  {
    forall i :: 0 <= i < |s| ==> !IsSpace(s[i])
  }

  predicate StartsWith(s: string, prefix: string)
  {
    |prefix| <= |s| && s[..|prefix|] == prefix
  }

  predicate EndsWith(s: string, suffix: string)
  {
    |suffix| <= |s| && s[|s| - |suffix|..] == suffix
  }

  /** `sub` sits in `s` at index `i`. */
  predicate OccursAt(s: string, sub: string, i: int)
  {
    0 <= i && i + |sub| <= |s| && s[i..i + |sub|] == sub
  }

  /** Python's `sub in s`. */
  predicate Contains(s: string, sub: string)
  {
    exists i | 0 <= i <= |s| :: OccursAt(s, sub, i)
  }

  /** The index of the first occurrence of `sub` in `s` (Python's `str.find`). */
  function FindFirst(s: string, sub: string): (k: nat)
    requires Contains(s, sub)
    ensures OccursAt(s, sub, k)
    ensures forall j :: 0 <= j < k ==> !OccursAt(s, sub, j)
    decreases |s|
  {
    if StartsWith(s, sub) then 0
    else
      var i :| OccursAt(s, sub, i);
      assert i != 0;
      assert OccursAt(s[1..], sub, i - 1) by {
        assert s[1..][i - 1..i - 1 + |sub|] == s[i..i + |sub|];
      }
      var k := FindFirst(s[1..], sub);
      assert s[1..][k..k + |sub|] == s[k + 1..k + 1 + |sub|];
      forall j | 0 < j < k + 1 ensures !OccursAt(s, sub, j) {
        assert !OccursAt(s[1..], sub, j - 1);
        assert j + |sub| <= |s| ==> s[1..][j - 1..j - 1 + |sub|] == s[j..j + |sub|];
      }
      assert !OccursAt(s, sub, 0);
      k + 1
  }

  /** Python's `s.lstrip()`. */
  function LStrip(s: string): (r: string)
    ensures r == [] || !IsSpace(r[0])
    ensures |r| <= |s|
  {
    if s != [] && IsSpace(s[0]) then LStrip(s[1..]) else s
  }

  /** Python's `s.rstrip()`. */
  function RStrip(s: string): (r: string)
    ensures r == [] || !IsSpace(r[|r| - 1])
    ensures |r| <= |s|
  {
    if s != [] && IsSpace(s[|s| - 1]) then RStrip(s[..|s| - 1]) else s
  }

  /** Python's `s.strip()`. */
  function Strip(s: string): string
  {
    RStrip(LStrip(s))
  }

  /** A string with no whitespace at either end is its own strip. */
  lemma StripOfTrimmed(s: string)
    requires s != [] && !IsSpace(s[0]) && !IsSpace(s[|s| - 1])
    ensures Strip(s) == s
  {
  }

  /** Whitespace after a trimmed string is what `strip()` drops. */
  lemma {:induction false} StripDropsTrailingSpace(s: string, c: char)
    requires s != [] && !IsSpace(s[0]) && !IsSpace(s[|s| - 1]) && IsSpace(c)
    ensures Strip(s + [c]) == s
  {
    assert LStrip(s + [c]) == s + [c];
    assert (s + [c])[..|s|] == s;
    assert RStrip(s + [c]) == RStrip(s);
  }

  // ---------------------------------------------------------------------
  // Joining

  /** Python's `sep.join(parts)`. */
  function Join(sep: string, parts: seq<string>): string
    decreases |parts|
  {
    if parts == [] then ""
    else if |parts| == 1 then parts[0]
    else parts[0] + sep + Join(sep, parts[1..])
  }

  /** Joining two non-empty lists is joining each and putting `sep` between. */
  lemma {:induction false} JoinAppend(sep: string, a: seq<string>, b: seq<string>)
    requires a != [] && b != []
    ensures Join(sep, a + b) == Join(sep, a) + sep + Join(sep, b)
    decreases |a|
  {
    if |a| == 1 {
      assert (a + b)[1..] == b;
    } else {
      assert (a + b)[1..] == a[1..] + b;
      JoinAppend(sep, a[1..], b);
    }
  }

  /** A join starts with its first part. */
  lemma {:induction false} JoinStartsWithFirst(sep: string, parts: seq<string>)
    requires parts != []
    ensures StartsWith(Join(sep, parts), parts[0])
  {
    if |parts| > 1 {
      assert Join(sep, parts)[..|parts[0]|] == parts[0];
    }
  }

  /** A join ends with its last part. */
  lemma {:induction false} JoinEndsWithLast(sep: string, parts: seq<string>)
    requires parts != []
    ensures EndsWith(Join(sep, parts), parts[|parts| - 1])
    decreases |parts|
  {
    if |parts| > 1 {
      JoinEndsWithLast(sep, parts[1..]);
      var t := Join(sep, parts[1..]);
      var last := parts[|parts| - 1];
      assert parts[1..][|parts[1..]| - 1] == last;
      var j := Join(sep, parts);
      assert j == (parts[0] + sep) + t;
      assert j[|j| - |last|..] == t[|t| - |last|..];
    }
  }

  // ---------------------------------------------------------------------
  // Lines: Python's `splitlines()`, modelled on '\n' alone

  /** Index of the first '\n' in `s`, or `|s|` when there is none. */
  function NewlineIndex(s: string): (k: nat)
    ensures k <= |s|
    ensures '\n' !in s[..k]
    ensures k < |s| ==> s[k] == '\n'
  {
    if s == [] then 0
    else if s[0] == '\n' then 0
    else
      var k := NewlineIndex(s[1..]);
      assert s[..k + 1] == [s[0]] + s[1..][..k];
      k + 1
  }

  /** The first newline of `l + "\n" + t` is the one after `l`. */
  lemma NewlineIndexAfter(l: string, t: string)
    requires '\n' !in l
    ensures NewlineIndex(l + "\n" + t) == |l|
  {
    var s := l + "\n" + t;
    var k := NewlineIndex(s);
    assert s[..|l|] == l;
    assert s[|l|] == '\n';
  }

  /** `splitlines()` of a string: split on '\n', no trailing empty piece. */
  function Lines(s: string): (r: seq<string>)
    ensures forall i :: 0 <= i < |r| ==> '\n' !in r[i]
    decreases |s|
  {
    if s == [] then []
    else
      var k := NewlineIndex(s);
      if k == |s| then [s] else [s[..k]] + Lines(s[k + 1..])
  }

  lemma StartsWithTrans(a: string, b: string, c: string)
    requires StartsWith(a, b) && StartsWith(b, c)
    ensures StartsWith(a, c)
  {
    assert a[..|c|] == b[..|b|][..|c|];
  }

  /** Putting the same text in front keeps a prefix a prefix. */
  lemma StartsWithPrepend(p: string, s: string, t: string)
    requires StartsWith(s, t)
    ensures StartsWith(p + s, p + t)
  {
    assert (p + s)[..|p + t|] == p + s[..|t|];
  }

  /** Joining the first `m` parts gives a prefix of joining them all. */
  lemma {:induction false} JoinPrefix(sep: string, parts: seq<string>, m: nat)
    requires m <= |parts|
    ensures StartsWith(Join(sep, parts), Join(sep, parts[..m]))
    decreases m
  {
    if m == 0 {
    } else if |parts| == 1 {
      assert parts[..m] == parts;
    } else if m == 1 {
      assert parts[..1] == [parts[0]];
      assert Join(sep, parts) == parts[0] + (sep + Join(sep, parts[1..]));
    } else {
      var pre := parts[..m];
      assert pre[0] == parts[0] && pre[1..] == parts[1..][..m - 1];
      JoinPrefix(sep, parts[1..], m - 1);
      StartsWithPrepend(parts[0] + sep, Join(sep, parts[1..]), Join(sep, parts[1..][..m - 1]));
    }
  }

  /** One step of `Lines`: the first line, then the lines after its newline. */
  lemma LinesStep(s: string) returns (k: nat)
    requires s != []
    ensures k <= |s|
    ensures k == |s| ==> Lines(s) == [s]
    ensures k < |s| ==> s == s[..k] + ("\n" + s[k + 1..]) && Lines(s) == [s[..k]] + Lines(s[k + 1..])
  {
    k := NewlineIndex(s);
    if k < |s| {
      assert s == s[..k] + ("\n" + s[k + 1..]);
    }
  }

  /** The lines of `s`, joined again, are a prefix of `s` (all of it, or all
      but a final newline). */
  lemma {:induction false} LinesJoinPrefix(s: string)
    ensures StartsWith(s, Join("\n", Lines(s)))
    decreases |s|
  {
    if s != [] {
      var k := LinesStep(s);
      if k < |s| {
        var line, rest := s[..k], s[k + 1..];
        LinesJoinPrefix(rest);
        var ls := Lines(rest);
        if ls == [] {
          assert Join("\n", Lines(s)) == line;
        } else {
          assert Join("\n", Lines(s)) == line + ("\n" + Join("\n", ls));
          StartsWithPrepend("\n", rest, Join("\n", ls));
          StartsWithPrepend(line, "\n" + rest, "\n" + Join("\n", ls));
        }
      }
    }
  }

  /** Splitting a '\n'-join into lines gives back the parts, provided no part
      holds a newline and the last part is not empty (an empty last part would
      read as a trailing newline). */
  lemma {:induction false} LinesOfJoin(parts: seq<string>)
    requires forall i :: 0 <= i < |parts| ==> '\n' !in parts[i]
    requires parts == [] || parts[|parts| - 1] != ""
    ensures Lines(Join("\n", parts)) == parts
    decreases |parts|
  {
    if |parts| == 1 {
      assert NewlineIndex(parts[0]) == |parts[0]|;
    } else if |parts| > 1 {
      var t := Join("\n", parts[1..]);
      var s := parts[0] + "\n" + t;
      NewlineIndexAfter(parts[0], t);
      assert s[..|parts[0]|] == parts[0];
      assert s[|parts[0]| + 1..] == t;
      LinesOfJoin(parts[1..]);
    }
  }

  // ---------------------------------------------------------------------
  // Words: Python's `split()` with no argument

  /** Index of the first whitespace character of `s`, or `|s|`. */
  function WordEnd(s: string): (k: nat)
    ensures k <= |s|
    ensures NoSpace(s[..k])
    ensures k < |s| ==> IsSpace(s[k])
  {
    if s == [] || IsSpace(s[0]) then 0
    else
      var k := WordEnd(s[1..]);
      assert s[..k + 1] == [s[0]] + s[1..][..k];
      k + 1
  }

  /** Python's `s.split()`: the maximal runs of non-whitespace characters. */
  function Words(s: string): (r: seq<string>)
    ensures forall i :: 0 <= i < |r| ==> r[i] != [] && NoSpace(r[i])
    decreases |s|
  {
    if s == [] then []
    else if IsSpace(s[0]) then Words(s[1..])
    else
      var k := WordEnd(s);
      [s[..k]] + Words(s[k..])
  }

  lemma WordEndOfWord(w: string, t: string)
    requires NoSpace(w) && (t == [] || IsSpace(t[0]))
    ensures WordEnd(w + t) == |w|
  {
    var s := w + t;
    assert s[..|w|] == w;
    assert |w| < |s| ==> s[|w|] == t[0];
  }

  /** Splitting a space-join of words gives back the words. */
  lemma {:induction false} WordsOfJoin(ws: seq<string>)
    requires forall i :: 0 <= i < |ws| ==> ws[i] != [] && NoSpace(ws[i])
    ensures Words(Join(" ", ws)) == ws
    decreases |ws|
  {
    if |ws| == 1 {
      WordEndOfWord(ws[0], []);
      assert ws[0] + [] == ws[0];
      assert ws[0][|ws[0]|..] == [];
    } else if |ws| > 1 {
      var t := Join(" ", ws[1..]);
      var s := ws[0] + (" " + t);
      assert Join(" ", ws) == s;
      WordEndOfWord(ws[0], " " + t);
      assert s[..|ws[0]|] == ws[0];
      assert s[|ws[0]|..] == " " + t;
      assert Words(" " + t) == Words(t) by {
        assert (" " + t)[1..] == t;
      }
      WordsOfJoin(ws[1..]);
    }
  }

  // ---------------------------------------------------------------------
  // Numbers

  predicate IsAsciiDigit(c: char)
  {
    '0' <= c <= '9'
  }

  predicate AllDigits(s: string)
  {
    forall i :: 0 <= i < |s| ==> IsAsciiDigit(s[i])
  }

  /** Python's `int(ds)` for a string of ASCII digits (leading zeros allowed). */
  function DecimalValue(ds: string): nat
    requires AllDigits(ds)
    decreases |ds|
  {
    if ds == [] then 0
    else DecimalValue(ds[..|ds| - 1]) * 10 + (ds[|ds| - 1] as int - '0' as int)
  }

  function DigitChar(d: nat): (c: char)
    requires d < 10
    ensures IsAsciiDigit(c) && c as int - '0' as int == d
  {
    ('0' as int + d) as char
  }

  /** Python's `str(n)` for a natural number: decimal, no leading zeros. */
  function NatToString(n: nat): (s: string)
    ensures s != [] && AllDigits(s)
  {
    if n < 10 then [DigitChar(n)]
    else NatToString(n / 10) + [DigitChar(n % 10)]
  }

  /** Python's `str(i)` for an integer. */
  function IntToString(i: int): string
  {
    if i < 0 then "-" + NatToString(-i) else NatToString(i)
  }

  /** `int(str(n)) == n`. */
  lemma {:induction false} DecimalValueOfNatToString(n: nat)
    ensures DecimalValue(NatToString(n)) == n
  {
    if n >= 10 {
      var s := NatToString(n);
      assert s[..|s| - 1] == NatToString(n / 10);
      DecimalValueOfNatToString(n / 10);
    }
  }

  /** Python's `s[:n]` for a non-negative `n`. */
  function Take(s: string, n: nat): (r: string)
    ensures |r| == if n < |s| then n else |s|
    ensures StartsWith(s, r)
  {
    if n < |s| then s[..n] else s
  }
}
