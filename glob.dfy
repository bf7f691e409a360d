/** `fnmatch.fnmatchcase(name, pattern)`: shell-style wildcards, matched case-sensitively
    against the whole name. The pattern is first compiled into tokens, as
    `fnmatch.translate` compiles it into a regular expression. */
module Glob {
  import opened PyStr

  /** One member of a bracket expression: a character or a range `lo-hi`. */
  datatype ClassItem = Single(c: char) | Span(lo: char, hi: char)

  datatype Token =
    | Literal(c: char)                                   // an ordinary character
    | AnyChar                                            // `?`
    | AnyString                                          // `*`
    | CharClass(negated: bool, items: seq<ClassItem>)    // `[seq]` or `[!seq]`

  predicate ItemMatches(item: ClassItem, c: char)
  {
    match item
    case Single(d) => c == d
    case Span(lo, hi) => lo <= c <= hi    // a reversed range matches nothing
  }

  predicate InClass(c: char, items: seq<ClassItem>)
  {
    exists i :: 0 <= i < |items| && ItemMatches(items[i], c)
  }

  /** The members of a bracket expression, read left to right: `a-b` is a range
      unless the `-` is the last character. */
  function ParseItems(body: string): (items: seq<ClassItem>)
    decreases |body|
  {
    if body == [] then []
    else if |body| >= 3 && body[1] == '-' then [Span(body[0], body[2])] + ParseItems(body[3..])
    else [Single(body[0])] + ParseItems(body[1..])
  }

  /** The index of the first `]` of `s` at or after `j`, or `|s|`. */
  function NextClose(s: string, j: nat): (k: nat)
    requires j <= |s|
    ensures j <= k <= |s|
    ensures k < |s| ==> s[k] == ']'
    ensures forall m :: j <= m < k ==> s[m] != ']'
    decreases |s| - j
  {
    if j == |s| || s[j] == ']' then j else NextClose(s, j + 1)
  }

  /** For the text `s` that follows a `[`, the index of the `]` closing the
      bracket expression, or `|s|` when it is unclosed. A `]` right after the
      `[` or `[!` belongs to the expression. */
  function CloseOf(s: string): (k: nat)
    ensures k <= |s|
  {
    var j := if 0 < |s| && s[0] == '!' then 1 else 0;
    var j' := if j < |s| && s[j] == ']' then j + 1 else j;
    NextClose(s, j')
  }

  /** The tokens of a pattern. An unclosed `[` is an ordinary character. */
  function Compile(pattern: string): (tokens: seq<Token>)
    decreases |pattern|
  {
    if pattern == [] then []
    else if pattern[0] == '*' then [AnyString] + Compile(pattern[1..])
    else if pattern[0] == '?' then [AnyChar] + Compile(pattern[1..])
    else if pattern[0] == '[' then
      var rest := pattern[1..];
      var k := CloseOf(rest);
      if k == |rest| then [Literal('[')] + Compile(rest)
      else
        var body := rest[..k];
        var negated := body != [] && body[0] == '!';
        [CharClass(negated, ParseItems(if negated then body[1..] else body))] + Compile(rest[k + 1..])
    else [Literal(pattern[0])] + Compile(pattern[1..])
  }

  /** Whether the tokens match the whole of `s`. */
  predicate Match(tokens: seq<Token>, s: string)
    decreases |tokens| + |s|
  {
    if tokens == [] then s == []
    else
      match tokens[0]
      case AnyString => Match(tokens[1..], s) || (s != [] && Match(tokens, s[1..]))
      case AnyChar => s != [] && Match(tokens[1..], s[1..])
      case Literal(c) => s != [] && s[0] == c && Match(tokens[1..], s[1..])
      case CharClass(negated, items) => s != [] && InClass(s[0], items) != negated && Match(tokens[1..], s[1..])
  }

  /** `fnmatch.fnmatchcase(name, pattern)` */
  predicate FnMatchCase(name: string, pattern: string)
  {
    Match(Compile(pattern), name)
  }

  /** The characters that make a pattern more than a literal name. */
  predicate IsMeta(c: char) { c == '*' || c == '?' || c == '[' }

  predicate IsPlain(pattern: string)
  {
    forall j :: 0 <= j < |pattern| ==> !IsMeta(pattern[j])
  }

  function Literals(s: string): (tokens: seq<Token>)
    ensures |tokens| == |s|
  {
    if s == [] then [] else [Literal(s[0])] + Literals(s[1..])
  }

  lemma {:induction false} CompilePlain(pattern: string)
    requires IsPlain(pattern)
    ensures Compile(pattern) == Literals(pattern)
  {
    if pattern != [] {
      assert !IsMeta(pattern[0]);
      CompilePlain(pattern[1..]);
    }
  }

  lemma {:induction false} MatchLiterals(s: string, name: string)
    ensures Match(Literals(s), name) <==> name == s
  {
    if s != [] && name != [] {
      MatchLiterals(s[1..], name[1..]);
      if name[1..] == s[1..] && name[0] == s[0] {
        assert name == [name[0]] + name[1..];
        assert s == [s[0]] + s[1..];
      }
    }
  }

  /** A pattern without wildcards matches exactly the name spelled the same,
      letter case included. */
  lemma PlainPatternMatchesOnlyItself(name: string, pattern: string)
    requires IsPlain(pattern)
    ensures FnMatchCase(name, pattern) <==> name == pattern
  {
    CompilePlain(pattern);
    MatchLiterals(pattern, name);
  }

  lemma {:induction false} StarThenLiterals(name: string, suffix: string)
    ensures Match([AnyString] + Literals(suffix), name) <==> EndsWith(name, suffix)
    decreases |name|
  {
    var tokens := [AnyString] + Literals(suffix);
    assert tokens[1..] == Literals(suffix);
    MatchLiterals(suffix, name);
    if name != [] {
      StarThenLiterals(name[1..], suffix);
      if |suffix| <= |name[1..]| {
        assert name[1..][|name[1..]| - |suffix|..] == name[|name| - |suffix|..];
      }
      if EndsWith(name, suffix) && name != suffix {
        assert |suffix| < |name|;
        assert name[1..][|name[1..]| - |suffix|..] == name[|name| - |suffix|..];
      }
    } else {
      if EndsWith(name, suffix) { assert suffix == []; }
    }
  }

  /** `*` followed by a plain suffix (an ignore rule such as `*.txt`) matches
      exactly the names ending in that suffix, letter case included. */
  lemma StarSuffixMatchesEndings(name: string, suffix: string)
    requires IsPlain(suffix)
    ensures FnMatchCase(name, "*" + suffix) <==> EndsWith(name, suffix)
  {
    assert ("*" + suffix)[1..] == suffix;
    CompilePlain(suffix);
    StarThenLiterals(name, suffix);
  }

  /** `*` alone matches every name. */
  lemma StarMatchesEverything(name: string)
    ensures FnMatchCase(name, "*")
  {
    StarSuffixMatchesEndings(name, "");
    assert "*" + "" == "*";
  }

  lemma {:induction false} ParseSingles(body: string, c: char)
    requires forall j :: 0 <= j < |body| ==> body[j] != '-'
    ensures InClass(c, ParseItems(body)) <==> c in body
    decreases |body|
  {
    if body != [] {
      var tail := ParseItems(body[1..]);
      ParseSingles(body[1..], c);
      if |body| >= 3 { assert body[1] != '-'; }
      var items := ParseItems(body);
      assert items == [Single(body[0])] + tail;
      assert body == [body[0]] + body[1..];
      if c in body {
        if c == body[0] {
          assert ItemMatches(items[0], c);
        } else {
          assert c in body[1..];
          var i :| 0 <= i < |tail| && ItemMatches(tail[i], c);
          assert items[i + 1] == tail[i];
        }
      }
      if InClass(c, items) {
        var i :| 0 <= i < |items| && ItemMatches(items[i], c);
        if i > 0 {
          assert items[i] == tail[i - 1];
          assert InClass(c, tail);
        }
      }
    }
  }

  /** A bracket expression `[seq]` or `[!seq]` whose members are plain
      characters matches a single character that is (is not) one of them. */
  lemma BracketMatchesOneCharacter(name: string, body: string, negated: bool)
    requires body != [] && body[0] != '!'
    requires forall j :: 0 <= j < |body| ==> body[j] != '-' && body[j] != ']'
    ensures FnMatchCase(name, (if negated then "[!" else "[") + body + "]")
            <==> |name| == 1 && (name[0] in body) != negated
  {
    var pattern := (if negated then "[!" else "[") + body + "]";
    var rest := pattern[1..];
    var inner := if negated then "!" + body else body;
    assert rest == inner + "]";
    assert NextClose(rest, |inner|) == |inner|;
    forall m | 0 <= m < |inner| ensures rest[m] != ']' {
      if negated && m > 0 { assert rest[m] == body[m - 1]; }
    }
    assert CloseOf(rest) == |inner| by {
      var j := if 0 < |rest| && rest[0] == '!' then 1 else 0;
      assert j == (if negated then 1 else 0);
      var j' := if j < |rest| && rest[j] == ']' then j + 1 else j;
      assert j' == j;
      NextCloseSkips(rest, j', |inner|);
    }
    assert rest[..|inner|] == inner;
    assert rest[|inner| + 1..] == [];
    assert inner != [] && (inner[0] == '!') == negated;
    if negated { assert inner[1..] == body; }
    var tokens := [CharClass(negated, ParseItems(body))];
    assert Compile(pattern) == tokens;
    if name != [] {
      ParseSingles(body, name[0]);
      assert tokens[1..] == [];
      assert Match(tokens, name) <==> InClass(name[0], ParseItems(body)) != negated && Match([], name[1..]);
    }
  }

  lemma NextCloseSkips(s: string, j: nat, k: nat)
    requires j <= k < |s| && s[k] == ']'
    requires forall m :: j <= m < k ==> s[m] != ']'
    ensures NextClose(s, j) == k
    decreases k - j
  {
    if j < k { NextCloseSkips(s, j + 1, k); }
  }
}
