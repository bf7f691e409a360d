/** The few Python `str` operations the core relies on, on `seq<char>`. */
module PyStr {

  /** `s.startswith(prefix)` */
  predicate StartsWith(s: string, prefix: string)
  {
    |prefix| <= |s| && s[..|prefix|] == prefix
  }

  /** `s.endswith(suffix)` */
  predicate EndsWith(s: string, suffix: string)
  {
    |suffix| <= |s| && s[|s| - |suffix|..] == suffix
  }

  /** `s.lstrip('/')`: the suffix left after every leading slash is removed. */
  function LStripSlashes(s: string): (r: string)
    ensures |r| <= |s| && r == s[|s| - |r|..]
    ensures r == [] || r[0] != '/'
    ensures forall j :: 0 <= j < |s| - |r| ==> s[j] == '/'
  {
    if s != [] && s[0] == '/' then LStripSlashes(s[1..]) else s
  }

  /** `sep` occurs in `s` starting at index `j`. */
  predicate OccursAt(s: string, sep: string, j: int)
  {
    0 <= j <= |s| - |sep| && s[j..j + |sep|] == sep
  }

  /** `s.find(sep)`: the first index at which `sep` occurs in `s`, or -1. */
  function Find(s: string, sep: string): (i: int)
    ensures i == -1 || 0 <= i <= |s| - |sep|
    ensures i >= 0 ==> OccursAt(s, sep, i)
    ensures i >= 0 ==> forall j :: 0 <= j < i ==> !OccursAt(s, sep, j)
    ensures i < 0 ==> forall j :: !OccursAt(s, sep, j)
  {
    if |s| < |sep| then -1
    else if s[..|sep|] == sep then 0
    else
      var j := Find(s[1..], sep);
      OccursShift(s, sep);
      if j < 0 then -1 else j + 1
  }

  /** An occurrence after the first character is an occurrence in the tail. */
  lemma OccursShift(s: string, sep: string)
    requires s != []
    ensures forall k :: k >= 1 ==> (OccursAt(s, sep, k) <==> OccursAt(s[1..], sep, k - 1))
  {
    forall k | k >= 1
      ensures OccursAt(s, sep, k) <==> OccursAt(s[1..], sep, k - 1)
    {
      if 0 <= k - 1 <= |s[1..]| - |sep| {
        assert s[1..][k - 1..k - 1 + |sep|] == s[k..k + |sep|];
      }
    }
  }

  /** `s.split(sep)` for a non-empty separator: the pieces between the
      non-overlapping occurrences of `sep`, scanned left to right. */
  function Split(s: string, sep: string): (parts: seq<string>)
    requires sep != []
    ensures |parts| >= 1
    decreases |s|
  {
    var i := Find(s, sep);
    if i < 0 then [s] else [s[..i]] + Split(s[i + |sep|..], sep)
  }

  lemma SplitAtFront(s: string, sep: string)
    requires sep != [] && OccursAt(s, sep, 0)
    ensures Find(s, sep) == 0
    ensures Split(s, sep) == [[]] + Split(s[|sep|..], sep)
  {
  }

  lemma SplitFirstPiece(s: string, sep: string)
    requires sep != []
    ensures Find(s, sep) < 0 ==> Split(s, sep) == [s]
    ensures Find(s, sep) >= 0 ==> Split(s, sep)[0] == s[..Find(s, sep)]
  {
  }

  /** The characters at which `str.splitlines` ends a line. */
  predicate IsLineBreak(c: char)
  {
    c == '\n' || c == '\r' || c == '\U{0B}' || c == '\U{0C}' || c == '\U{1C}' || c == '\U{1D}'
    || c == '\U{1E}' || c == '\U{85}' || c == '\U{2028}' || c == '\U{2029}'
  }

  predicate NoLineBreak(s: string)
  {
    forall j :: 0 <= j < |s| ==> !IsLineBreak(s[j])
  }

  /** The index of the first line break in `s`, or `|s|`. */
  function FirstBreak(s: string): (i: nat)
    ensures i <= |s|
    ensures i < |s| ==> IsLineBreak(s[i])
    ensures NoLineBreak(s[..i])
  {
    if s == [] || IsLineBreak(s[0]) then 0
    else
      var i := 1 + FirstBreak(s[1..]);
      assert s[..i] == [s[0]] + s[1..][..i - 1];
      i
  }

  /** `s.splitlines()`: the lines of `s` without their terminators; `"\r\n"`
      ends one line, and a final terminator does not start an empty line. */
  function SplitLines(s: string): (lines: seq<string>)
    ensures forall i :: 0 <= i < |lines| ==> NoLineBreak(lines[i])
    decreases |s|
  {
    if s == [] then []
    else
      var i := FirstBreak(s);
      if i == |s| then
        assert s[..i] == s;
        [s]
      else
        var w := if s[i] == '\r' && i + 1 < |s| && s[i + 1] == '\n' then 2 else 1;
        [s[..i]] + SplitLines(s[i + w..])
  }

  /** Every line followed by `terminator`, as a text area or file stores them. */
  function JoinLines(lines: seq<string>, terminator: string): string
  {
    if lines == [] then [] else lines[0] + terminator + JoinLines(lines[1..], terminator)
  }

  lemma FirstBreakAt(line: string, rest: string)
    requires NoLineBreak(line) && rest != [] && IsLineBreak(rest[0])
    ensures FirstBreak(line + rest) == |line|
  {
    if line != [] {
      assert (line + rest)[1..] == line[1..] + rest;
      FirstBreakAt(line[1..], rest);
    }
  }

  /** Text without a line break is one line. */
  lemma {:induction false} SplitLinesOfOneLine(s: string)
    requires s != [] && NoLineBreak(s)
    ensures SplitLines(s) == [s]
  {
    FirstBreakNone(s);
  }

  lemma {:induction false} FirstBreakNone(s: string)
    requires NoLineBreak(s)
    ensures FirstBreak(s) == |s|
  {
    if s != [] {
      FirstBreakNone(s[1..]);
    }
  }

  /** One terminated line at the front of `s` is split off, and the rest is split on. */
  lemma SplitLinesStep(line: string, terminator: string, rest: string)
    requires NoLineBreak(line)
    requires terminator == "\n" || terminator == "\r\n"
    ensures SplitLines(line + terminator + rest) == [line] + SplitLines(rest)
  {
    var s := line + terminator + rest;
    assert line + terminator + rest == line + (terminator + rest);
    FirstBreakAt(line, terminator + rest);
    assert s[..|line|] == line;
    assert s[|line|] == terminator[0];
    if terminator == "\r\n" {
      assert s[|line| + 1] == '\n';
    }
    assert s[|line| + |terminator|..] == rest;
  }

  /** Splitting text whose lines all end in `"\n"`, or all in `"\r\n"` (the
      terminator a browser submits a text area with), gives back those lines. */
  lemma {:induction false} SplitLinesOfJoined(lines: seq<string>, terminator: string)
    requires forall i :: 0 <= i < |lines| ==> NoLineBreak(lines[i])
    requires terminator == "\n" || terminator == "\r\n"
    ensures SplitLines(JoinLines(lines, terminator)) == lines
  {
    if lines != [] {
      SplitLinesStep(lines[0], terminator, JoinLines(lines[1..], terminator));
      SplitLinesOfJoined(lines[1..], terminator);
    }
  }

  predicate IsAsciiUpper(c: char) { 'A' <= c <= 'Z' }

  predicate IsAsciiLetter(c: char) { 'a' <= c <= 'z' || 'A' <= c <= 'Z' }

  /** `str.lower()` restricted to ASCII letters; other characters stay. */
  function LowerChar(c: char): (r: char)
    ensures !IsAsciiUpper(r)
    ensures IsAsciiUpper(c) ==> r as int == c as int + 32
    ensures !IsAsciiUpper(c) ==> r == c
  {
    if IsAsciiUpper(c) then (c as int + 32) as char else c
  }

  function Lower(s: string): (r: string)
    ensures |r| == |s|
    ensures forall j :: 0 <= j < |s| ==> r[j] == LowerChar(s[j])
  {
    if s == [] then [] else [LowerChar(s[0])] + Lower(s[1..])
  }
}
