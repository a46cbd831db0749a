/**
 The bucket-pattern compiler of tools/scripts/md-fabric.py: a path glob becomes a regular
 expression, piece by piece, with a flag that says whether a separator is due.

 A regular expression is its syntax tree. Its meaning is the usual one: which strings it
 matches from end to end, plus Python's rule that `$` also holds before one final newline.
 */
module Glob {
  import opened Common
  import opened Paths

  // ----- Regular expressions --------------------------------------------------------------------

  datatype Re =
    | Char(c: char)          // one escaped character
    | NotSlash               // [^/]
    | Star(re: Re)           // re*
    | Cat(first: Re, second: Re)

  /** The strings of a list, one after the other. */
  function Flat(pieces: seq<string>): string {
    if pieces == [] then [] else pieces[0] + Flat(pieces[1..])
  }

  ghost predicate Matches(re: Re, s: string)
    decreases re
  {
    match re
    case Char(c) => s == [c]
    case NotSlash => |s| == 1 && s[0] != '/'
    case Star(r) => exists pieces :: Flat(pieces) == s && forall i :: 0 <= i < |pieces| ==> Matches(r, pieces[i])
    case Cat(a, b) => exists u, v :: s == u + v && Matches(a, u) && Matches(b, v)
  }

  /** re+ is one re and then re*. */
  function Plus(re: Re): Re {
    Cat(re, Star(re))
  }

  /** The text is cut into one piece for each regular expression. */
  ghost predicate Parses(res: seq<Re>, pieces: seq<string>) {
    |res| == |pieces| && forall i :: 0 <= i < |res| ==> Matches(res[i], pieces[i])
  }

  /** A sequence of regular expressions, one after the other. */
  ghost predicate MatchesAll(res: seq<Re>, s: string) {
    exists pieces :: Parses(res, pieces) && Flat(pieces) == s
  }

  /** `re.match` with "^...$": the end anchor also holds before a newline that ends the string. */
  ghost predicate Accepts(res: seq<Re>, s: string) {
    MatchesAll(res, s) || (s != [] && s[|s| - 1] == '\n' && MatchesAll(res, s[..|s| - 1]))
  }

  // ----- The compiler ---------------------------------------------------------------------------

  function CharRegex(c: char): Re {
    if c == '*' then Star(NotSlash) else if c == '?' then NotSlash else Char(c)
  }

  /** One path segment, character by character. */
  function SegmentRegex(segment: string): seq<Re> {
    if segment == [] then [] else [CharRegex(segment[0])] + SegmentRegex(segment[1..])
  }

  const SEP: Re := Char('/')
  const ONE_SEGMENT: Re := Plus(NotSlash)
  const ANY_SEGMENTS: Re := Star(Cat(Plus(NotSlash), SEP))

  /** The regular expressions of one part, without the separator before it. */
  function PartRegex(part: string): seq<Re> {
    if part == "**" then [ANY_SEGMENTS]
    else if part == "*" then [ONE_SEGMENT]
    else SegmentRegex(part)
  }

  /** The regular expressions of the remaining parts when a separator is, or is not, due. */
  function CompileFrom(parts: seq<string>, needsSep: bool): seq<Re> {
    if parts == [] then []
    else (if needsSep then [SEP] else []) + PartRegex(parts[0]) + CompileFrom(parts[1..], parts[0] != "**")
  }

  /** The loop of the compiler, with its flag and its list of pieces. */
  method Compile(parts: seq<string>) returns (regex: seq<Re>)
    ensures regex == CompileFrom(parts, false)
  {
    regex := [];
    var needsSep := false;
    assert parts[0..] == parts;
    for i := 0 to |parts|
      invariant CompileFrom(parts, false) == regex + CompileFrom(parts[i..], needsSep)
    {
      var part := parts[i];
      assert parts[i..][1..] == parts[i + 1..];
      ghost var before, due := regex, if needsSep then [SEP] else [];
      if part == "**" {
        if needsSep {
          regex := regex + [SEP];
        }
        regex := regex + [ANY_SEGMENTS];
        Append3(before, due, [ANY_SEGMENTS], CompileFrom(parts[i + 1..], false));
        needsSep := false;
        continue;
      }
      if needsSep {
        regex := regex + [SEP];
      }
      if part == "*" {
        regex := regex + [ONE_SEGMENT];
        Append3(before, due, [ONE_SEGMENT], CompileFrom(parts[i + 1..], true));
        needsSep := true;
        continue;
      }
      var segment := CompileSegment(part);
      regex := regex + segment;
      Append3(before, due, segment, CompileFrom(parts[i + 1..], true));
      needsSep := true;
    }
  }

  lemma Append3<T>(a: seq<T>, b: seq<T>, c: seq<T>, d: seq<T>)
    ensures a + (b + c + d) == (a + b + c) + d
    ensures b == [] ==> a + (b + c + d) == (a + c) + d
  {
  }

  lemma SegmentStep(segment: string, i: nat, out: seq<Re>)
    requires i < |segment|
    ensures out + SegmentRegex(segment[i..]) == (out + [CharRegex(segment[i])]) + SegmentRegex(segment[i + 1..])
  {
    assert segment[i..][1..] == segment[i + 1..];
    AppendAssoc(out, [CharRegex(segment[i])], SegmentRegex(segment[i + 1..]));
  }

  method CompileSegment(segment: string) returns (out: seq<Re>)
    ensures out == SegmentRegex(segment)
  {
    out := [];
    assert segment[0..] == segment;
    for i := 0 to |segment|
      invariant SegmentRegex(segment) == out + SegmentRegex(segment[i..])
    {
      SegmentStep(segment, i, out);
      if segment[i] == '*' {
        out := out + [Star(NotSlash)];
      } else if segment[i] == '?' {
        out := out + [NotSlash];
      } else {
        out := out + [Char(segment[i])];
      }
    }
  }

  /** Backslashes become slashes, slashes are stripped from both ends. */
  function Normalize(pattern: string): string {
    StripBack(StripFront(Slashes(pattern)))
  }

  function Slashes(s: string): string {
    if s == [] then [] else [if s[0] == '\\' then '/' else s[0]] + Slashes(s[1..])
  }

  function StripFront(s: string): string {
    if s != [] && s[0] == '/' then StripFront(s[1..]) else s
  }

  function StripBack(s: string): string {
    if s != [] && s[|s| - 1] == '/' then StripBack(s[..|s| - 1]) else s
  }

  // ----- Normal forms of patterns -------------------------------------------------------------------------

  /** A backslash becomes a slash, every other character stays. */
  lemma {:induction false} SlashesAt(s: string)
    ensures |Slashes(s)| == |s|
    ensures forall i :: 0 <= i < |s| ==> Slashes(s)[i] == if s[i] == '\\' then '/' else s[i]
  {
    if s != [] {
      SlashesAt(s[1..]);
    }
  }

  predicate AllSlashes(s: string) {
    forall i :: 0 <= i < |s| ==> s[i] == '/'
  }

  predicate NoSlashAtEnds(s: string) {
    s != [] ==> s[0] != '/' && s[|s| - 1] != '/'
  }

  /** `n` is the pattern, with slashes for backslashes, between `i` and `j`, where only slashes are cut off. */
  ghost predicate Trimmed(pattern: string, n: string, i: int, j: int) {
    && 0 <= i <= j <= |pattern| && |n| == j - i && NoSlashAtEnds(n)
    && (forall k :: 0 <= k < |n| ==> n[k] == if pattern[i + k] == '\\' then '/' else pattern[i + k])
    && (forall k :: 0 <= k < |pattern| && !(i <= k < j) ==> pattern[k] == '/' || pattern[k] == '\\')
  }

  lemma {:induction false} StripFrontIs(s: string) returns (i: nat)
    ensures i <= |s| && StripFront(s) == s[i..] && AllSlashes(s[..i]) && (i < |s| ==> s[i] != '/')
  {
    if s != [] && s[0] == '/' {
      var k := StripFrontIs(s[1..]);
      i := k + 1;
      assert s[..i] == [s[0]] + s[1..][..k] && s[i..] == s[1..][k..];
    } else {
      i := 0;
      assert s[0..] == s;
    }
  }

  lemma {:induction false} StripBackIs(s: string) returns (j: nat)
    ensures j <= |s| && StripBack(s) == s[..j] && AllSlashes(s[j..]) && (j > 0 ==> s[j - 1] != '/')
  {
    if s != [] && s[|s| - 1] == '/' {
      j := StripBackIs(s[..|s| - 1]);
      assert s[..|s| - 1][..j] == s[..j] && s[j..] == s[..|s| - 1][j..] + [s[|s| - 1]];
    } else {
      j := |s|;
      assert s[..j] == s;
    }
  }

  /** What normalising does: slashes for backslashes, and the slashes at both ends cut off. */
  lemma NormalizeIs(pattern: string)
    ensures exists i, j :: Trimmed(pattern, Normalize(pattern), i, j)
  {
    var s := Slashes(pattern);
    SlashesAt(pattern);
    var i := StripFrontIs(s);
    var j := StripBackIs(s[i..]);
    var n := Normalize(pattern);
    assert n == s[i..][..j] == s[i..i + j];
    forall k | 0 <= k < |pattern| && !(i <= k < i + j)
      ensures s[k] == '/'
    {
      assert k < i ==> s[..i][k] == s[k];
      assert k >= i + j ==> s[i..][j..][k - i - j] == s[k];
    }
    assert Trimmed(pattern, n, i, i + j);
  }

  /** That determines the result. */
  lemma TrimmedUnique(pattern: string, m: string, n: string, i: int, j: int, k: int, l: int)
    requires Trimmed(pattern, m, i, j) && Trimmed(pattern, n, k, l)
    ensures m == n
  {
    if m != [] && n != [] {
      assert m[0] != '/' && m[|m| - 1] != '/' && n[0] != '/' && n[|n| - 1] != '/';
      assert !(i < k) && !(k < i);
      assert !(j < l) && !(l < j);
    }
  }

  /** A pattern without backslashes and without slashes at its ends is its own normal form. */
  lemma NormalizeOwn(pattern: string)
    requires '\\' !in pattern && NoSlashAtEnds(pattern)
    ensures Normalize(pattern) == pattern
  {
    NormalizeIs(pattern);
    var i, j :| Trimmed(pattern, Normalize(pattern), i, j);
    assert Trimmed(pattern, pattern, 0, |pattern|);
    TrimmedUnique(pattern, Normalize(pattern), pattern, i, j, 0, |pattern|);
  }

  /** Slashes and backslashes at the same places make no difference. */
  lemma NormalizeBackslashes(a: string, b: string)
    requires |a| == |b|
    requires forall k :: 0 <= k < |a| ==> a[k] == b[k] || (a[k] == '/' && b[k] == '\\')
    ensures Normalize(a) == Normalize(b)
  {
    SlashesAt(a);
    SlashesAt(b);
    assert Slashes(a) == Slashes(b);
  }

  /** Slashes added at either end change nothing. */
  lemma NormalizeEnds(front: string, pattern: string, back: string)
    requires AllSlashes(front) && AllSlashes(back)
    ensures Normalize(front + pattern + back) == Normalize(pattern)
  {
    var all, n := front + pattern + back, Normalize(pattern);
    NormalizeIs(pattern);
    NormalizeIs(all);
    var i, j :| Trimmed(pattern, n, i, j);
    var k, l :| Trimmed(all, Normalize(all), k, l);
    forall t | 0 <= t < |all| && !(i + |front| <= t < j + |front|)
      ensures all[t] == '/' || all[t] == '\\'
    {
      if |front| <= t < |front| + |pattern| {
        assert all[t] == pattern[t - |front|];
      }
    }
    forall t | 0 <= t < |n|
      ensures n[t] == if all[i + |front| + t] == '\\' then '/' else all[i + |front| + t]
    {
      assert all[i + |front| + t] == pattern[i + t];
    }
    assert Trimmed(all, n, i + |front|, j + |front|);
    TrimmedUnique(all, Normalize(all), n, k, l, i + |front|, j + |front|);
  }

  // ----- Reference: segment-wise matching ---------------------------------------------------------

  /** `*` inside a segment stands for any run of characters, `?` for one, others for themselves. */
  predicate CharMatches(c: char, u: string) {
    c == '*' || (|u| == 1 && (c == '?' || c == u[0]))
  }

  predicate CharsMatch(pat: string, s: string) {
    if pat == [] then s == []
    else exists k :: 0 <= k <= |s| && CharMatches(pat[0], s[..k]) && CharsMatch(pat[1..], s[k..])
  }

  /** A whole-segment `*` needs a non-empty segment. */
  predicate SegmentMatches(part: string, segment: string) {
    if part == "*" then segment != [] else CharsMatch(part, segment)
  }

  /** `**` stands for any number of non-empty segments, every other part for one segment. */
  predicate GlobMatches(parts: seq<string>, segments: seq<string>)
    decreases |parts|, |segments|
  {
    if parts == [] then segments == []
    else if parts[0] == "**" then
      || GlobMatches(parts[1..], segments)
      || (segments != [] && segments[0] != [] && GlobMatches(parts, segments[1..]))
    else segments != [] && SegmentMatches(parts[0], segments[0]) && GlobMatches(parts[1..], segments[1..])
  }

  /** A segment pattern without wildcards matches itself only. */
  lemma {:induction false} LiteralMatch(pat: string, s: string)
    requires '*' !in pat && '?' !in pat
    ensures CharsMatch(pat, s) <==> s == pat
  {
    if pat != [] {
      if CharsMatch(pat, s) {
        var k :| 0 <= k <= |s| && CharMatches(pat[0], s[..k]) && CharsMatch(pat[1..], s[k..]);
        LiteralMatch(pat[1..], s[k..]);
        assert s == s[..k] + s[k..] && pat == [pat[0]] + pat[1..];
      }
      if s == pat {
        LiteralMatch(pat[1..], s[1..]);
        assert s[..1] == [s[0]] && CharMatches(pat[0], s[..1]);
      }
    }
  }

  /** `?` takes one character, whichever it is. */
  lemma QuestionMark(rest: string, s: string)
    ensures CharsMatch("?" + rest, s) <==> s != [] && CharsMatch(rest, s[1..])
  {
    var pat := "?" + rest;
    assert pat[1..] == rest;
    if s != [] && CharsMatch(rest, s[1..]) {
      assert CharMatches(pat[0], s[..1]);
    }
  }

  /** `*` takes any number of characters, none included. */
  lemma StarInSegment(rest: string, s: string)
    ensures CharsMatch("*" + rest, s) <==> exists k :: 0 <= k <= |s| && CharsMatch(rest, s[k..])
  {
    var pat := "*" + rest;
    assert pat[1..] == rest;
    if k :| 0 <= k <= |s| && CharsMatch(rest, s[k..]) {
      assert CharMatches(pat[0], s[..k]);
    }
  }

  /** A character that is no wildcard stands for itself. */
  lemma PlainChar(c: char, rest: string, s: string)
    requires c != '*' && c != '?'
    ensures CharsMatch([c] + rest, s) <==> s != [] && s[0] == c && CharsMatch(rest, s[1..])
  {
    var pat := [c] + rest;
    assert pat[1..] == rest;
    if s != [] && s[0] == c && CharsMatch(rest, s[1..]) {
      assert CharMatches(pat[0], s[..1]);
    }
  }

  predicate NoEmpty(segments: seq<string>) {
    forall i :: 0 <= i < |segments| ==> segments[i] != []
  }

  /** `**` takes any number of non-empty segments, none included. */
  lemma {:induction false} StarsTake(rest: seq<string>, segments: seq<string>)
    ensures GlobMatches(["**"] + rest, segments)
            <==> exists k :: 0 <= k <= |segments| && NoEmpty(segments[..k]) && GlobMatches(rest, segments[k..])
    decreases |segments|
  {
    var parts := ["**"] + rest;
    assert parts[1..] == rest && segments[0..] == segments;
    if GlobMatches(rest, segments) {
      assert NoEmpty(segments[..0]);
    }
    if segments != [] {
      StarsTake(rest, segments[1..]);
      if segments[0] != [] && GlobMatches(parts, segments[1..]) {
        var k :| 0 <= k <= |segments[1..]| && NoEmpty(segments[1..][..k]) && GlobMatches(rest, segments[1..][k..]);
        assert segments[1..][k..] == segments[k + 1..] && segments[..k + 1] == [segments[0]] + segments[1..][..k];
      }
      if k :| 0 <= k <= |segments| && NoEmpty(segments[..k]) && GlobMatches(rest, segments[k..]) && k > 0 {
        assert segments[..k][0] == segments[0] && segments[1..][..k - 1] == segments[..k][1..];
        assert segments[1..][k - 1..] == segments[k..];
        assert NoEmpty(segments[1..][..k - 1]);
      }
    }
  }

  /** A lone `*` takes one non-empty segment. */
  lemma StarTakesOne(rest: seq<string>, segments: seq<string>)
    ensures GlobMatches(["*"] + rest, segments)
            <==> segments != [] && segments[0] != [] && GlobMatches(rest, segments[1..])
  {
    assert (["*"] + rest)[1..] == rest;
  }

  /** Any other part takes one segment, character by character; and the parts take all segments. */
  lemma PartTakesOne(part: string, rest: seq<string>, segments: seq<string>)
    requires part != "*" && part != "**"
    ensures GlobMatches([part] + rest, segments)
            <==> segments != [] && CharsMatch(part, segments[0]) && GlobMatches(rest, segments[1..])
    ensures GlobMatches([], segments) <==> segments == []
  {
    assert ([part] + rest)[1..] == rest;
  }

  // ----- What the pieces match --------------------------------------------------------------------

  lemma MatchesCons(re: Re, rest: seq<Re>, u: string, v: string)
    requires Matches(re, u) && MatchesAll(rest, v)
    ensures MatchesAll([re] + rest, u + v)
  {
    var pieces :| Parses(rest, pieces) && Flat(pieces) == v;
    assert Parses([re] + rest, [u] + pieces);
    assert ([u] + pieces)[1..] == pieces;
  }

  lemma MatchesUncons(re: Re, rest: seq<Re>, s: string) returns (u: string, v: string)
    requires MatchesAll([re] + rest, s)
    ensures s == u + v && Matches(re, u) && MatchesAll(rest, v)
  {
    var res := [re] + rest;
    var pieces :| Parses(res, pieces) && Flat(pieces) == s;
    u, v := pieces[0], Flat(pieces[1..]);
    assert Matches(res[0], u);
    assert Parses(rest, pieces[1..]) by {
      forall i | 0 <= i < |rest|
        ensures Matches(rest[i], pieces[1..][i])
      {
        assert Matches(res[i + 1], pieces[i + 1]);
      }
    }
  }

  lemma MatchesNil(s: string)
    ensures MatchesAll([], s) <==> s == []
  {
    assert Parses([], []) && Flat([]) == [];
  }

  lemma {:induction false} MatchesJoin(a: seq<Re>, b: seq<Re>, u: string, v: string)
    requires MatchesAll(a, u) && MatchesAll(b, v)
    ensures MatchesAll(a + b, u + v)
    decreases |a|
  {
    if a == [] {
      MatchesNil(u);
      assert a + b == b && u + v == v;
    } else {
      assert a == [a[0]] + a[1..];
      var x, y := MatchesUncons(a[0], a[1..], u);
      MatchesJoin(a[1..], b, y, v);
      MatchesCons(a[0], a[1..] + b, x, y + v);
      AppendAssoc([a[0]], a[1..], b);
      AppendAssoc(x, y, v);
    }
  }

  lemma {:induction false} MatchesSplit(a: seq<Re>, b: seq<Re>, s: string) returns (u: string, v: string)
    requires MatchesAll(a + b, s)
    ensures s == u + v && MatchesAll(a, u) && MatchesAll(b, v)
    decreases |a|
  {
    if a == [] {
      MatchesNil([]);
      assert a + b == b;
      u, v := [], s;
    } else {
      assert a == [a[0]] + a[1..];
      AppendAssoc([a[0]], a[1..], b);
      var x, y := MatchesUncons(a[0], a[1..] + b, s);
      var y1, y2 := MatchesSplit(a[1..], b, y);
      MatchesCons(a[0], a[1..], x, y1);
      AppendAssoc(x, y1, y2);
      u, v := x + y1, y2;
    }
  }

  lemma {:induction false} FlatNoSlash(pieces: seq<string>)
    requires forall i :: 0 <= i < |pieces| ==> '/' !in pieces[i]
    ensures '/' !in Flat(pieces)
  {
    if pieces != [] {
      FlatNoSlash(pieces[1..]);
    }
  }

  lemma {:induction false} FlatChars(s: string) returns (pieces: seq<string>)
    ensures Flat(pieces) == s
    ensures forall i :: 0 <= i < |pieces| ==> |pieces[i]| == 1 && pieces[i][0] in s
  {
    if s == [] {
      pieces := [];
    } else {
      var rest := FlatChars(s[1..]);
      pieces := [[s[0]]] + rest;
      assert pieces[1..] == rest;
    }
  }

  /** A list of strings, each matched by `r`. */
  ghost predicate EachMatches(r: Re, pieces: seq<string>) {
    forall i :: 0 <= i < |pieces| ==> Matches(r, pieces[i])
  }

  lemma StarSplit(r: Re, s: string) returns (pieces: seq<string>)
    requires Matches(Star(r), s)
    ensures Flat(pieces) == s && EachMatches(r, pieces)
  {
    pieces :| Flat(pieces) == s && forall i :: 0 <= i < |pieces| ==> Matches(r, pieces[i]);
  }

  lemma StarMatches(r: Re, pieces: seq<string>)
    requires EachMatches(r, pieces)
    ensures Matches(Star(r), Flat(pieces))
  {
  }

  lemma StarNotSlash(s: string)
    ensures Matches(Star(NotSlash), s) <==> '/' !in s
  {
    hide Matches;
    if Matches(Star(NotSlash), s) {
      NoSlashInStar(s);
    }
    if '/' !in s {
      var pieces := FlatChars(s);
      forall i | 0 <= i < |pieces|
        ensures Matches(NotSlash, pieces[i])
      {
        NotSlashIs(pieces[i]);
      }
      StarMatches(NotSlash, pieces);
    }
  }

  lemma NoSlashInStar(s: string)
    requires Matches(Star(NotSlash), s)
    ensures '/' !in s
  {
    hide Matches;
    var pieces := StarSplit(NotSlash, s);
    forall i | 0 <= i < |pieces|
      ensures '/' !in pieces[i]
    {
      NotSlashIs(pieces[i]);
    }
    FlatNoSlash(pieces);
  }

  lemma NotSlashIs(s: string)
    ensures Matches(NotSlash, s) <==> |s| == 1 && s[0] != '/'
  {
  }

  lemma CatMatches(a: Re, b: Re, u: string, v: string)
    requires Matches(a, u) && Matches(b, v)
    ensures Matches(Cat(a, b), u + v)
  {
  }

  lemma CatSplit(a: Re, b: Re, s: string) returns (u: string, v: string)
    requires Matches(Cat(a, b), s)
    ensures s == u + v && Matches(a, u) && Matches(b, v)
  {
    u, v :| s == u + v && Matches(a, u) && Matches(b, v);
  }

  lemma PlusNotSlash(s: string)
    ensures Matches(ONE_SEGMENT, s) <==> s != [] && '/' !in s
  {
    if Matches(ONE_SEGMENT, s) {
      var u, v := CatSplit(NotSlash, Star(NotSlash), s);
      StarNotSlash(v);
    }
    if s != [] && '/' !in s {
      StarNotSlash(s[1..]);
      CatMatches(NotSlash, Star(NotSlash), [s[0]], s[1..]);
      assert s == [s[0]] + s[1..];
    }
  }

  lemma CharMeaning(c: char, u: string)
    requires c != '/'
    ensures Matches(CharRegex(c), u) <==> '/' !in u && CharMatches(c, u)
  {
    StarNotSlash(u);
  }

  lemma CharsMatchCons(pat: string, u: string, v: string)
    requires pat != [] && CharMatches(pat[0], u) && CharsMatch(pat[1..], v)
    ensures CharsMatch(pat, u + v)
  {
    var s := u + v;
    assert s[..|u|] == u && s[|u|..] == v;
  }

  lemma CharsMatchUncons(pat: string, s: string) returns (u: string, v: string)
    requires pat != [] && CharsMatch(pat, s)
    ensures s == u + v && CharMatches(pat[0], u) && CharsMatch(pat[1..], v)
  {
    var k :| 0 <= k <= |s| && CharMatches(pat[0], s[..k]) && CharsMatch(pat[1..], s[k..]);
    u, v := s[..k], s[k..];
  }

  /** A compiled segment matches the slash-free strings its glob matches. */
  lemma {:induction false} SegmentMeaning(pat: string, s: string)
    requires '/' !in pat
    ensures MatchesAll(SegmentRegex(pat), s) <==> '/' !in s && CharsMatch(pat, s)
    decreases |pat|
  {
    if pat == [] {
      MatchesNil(s);
    } else {
      var first, rest := CharRegex(pat[0]), SegmentRegex(pat[1..]);
      if MatchesAll([first] + rest, s) {
        var u, v := MatchesUncons(first, rest, s);
        SegmentMeaning(pat[1..], v);
        CharMeaning(pat[0], u);
        CharsMatchCons(pat, u, v);
      }
      if '/' !in s && CharsMatch(pat, s) {
        var u, v := CharsMatchUncons(pat, s);
        SegmentMeaning(pat[1..], v);
        CharMeaning(pat[0], u);
        MatchesCons(first, rest, u, v);
      }
    }
  }

  lemma PartMeaning(part: string, s: string)
    requires '/' !in part && part != "**"
    ensures MatchesAll(PartRegex(part), s) <==> '/' !in s && SegmentMatches(part, s)
  {
    if part == "*" {
      assert [ONE_SEGMENT] + [] == [ONE_SEGMENT];
      PlusNotSlash(s);
      if MatchesAll([ONE_SEGMENT], s) {
        var u, v := MatchesUncons(ONE_SEGMENT, [], s);
        MatchesNil(v);
        assert u == s;
      }
      if Matches(ONE_SEGMENT, s) {
        MatchesNil([]);
        MatchesCons(ONE_SEGMENT, [], s, []);
        assert s + [] == s;
      }
    } else {
      SegmentMeaning(part, s);
    }
  }

  // ----- Texts as joined segments -----------------------------------------------------------------

  predicate Pieces(segments: seq<string>) {
    segments != [] && forall i :: 0 <= i < |segments| ==> '/' !in segments[i]
  }

  /** The text after the first segment: nothing, or a separator and the other segments. */
  function AfterFirst(segments: seq<string>): string
    requires segments != []
  {
    if |segments| == 1 then "" else "/" + Join(segments[1..])
  }

  lemma JoinFirst(segments: seq<string>)
    requires segments != []
    ensures Join(segments) == segments[0] + AfterFirst(segments)
  {
    if |segments| > 1 {
      AppendAssoc(segments[0], "/", Join(segments[1..]));
    }
  }

  /** A text has one cut between a slash-free front and nothing or a separator. */
  lemma CutUnique(a: string, w: string, u: string, v: string)
    requires a + w == u + v && '/' !in a && '/' !in u
    requires (w == [] || w[0] == '/') && (v == [] || v[0] == '/')
    ensures a == u && w == v
  {
    var text := a + w;
    assert |a| < |text| ==> text[|a|] == '/';
    assert |u| < |text| ==> text[|u|] == '/';
    assert forall i :: 0 <= i < |a| ==> text[i] == a[i] && a[i] != '/';
    assert forall i :: 0 <= i < |u| ==> text[i] == u[i] && u[i] != '/';
    assert a == text[..|a|] && u == text[..|u|];
    assert w == text[|a|..] && v == text[|u|..];
  }

  /** Matching a part and the rest cuts the text after its first segment. */
  lemma PartThenRestCuts(part: string, rest: seq<string>, segments: seq<string>)
    requires '/' !in part && part != "**" && Pieces(segments)
    requires MatchesAll(PartRegex(part) + CompileFrom(rest, true), Join(segments))
    ensures SegmentMatches(part, segments[0])
    ensures MatchesAll(CompileFrom(rest, true), AfterFirst(segments))
  {
    var u, v := MatchesSplit(PartRegex(part), CompileFrom(rest, true), Join(segments));
    PartMeaning(part, u);
    StartsWithSep(rest, v);
    JoinFirst(segments);
    CutUnique(segments[0], AfterFirst(segments), u, v);
  }

  lemma CompileSep(rest: seq<string>)
    requires rest != []
    ensures CompileFrom(rest, true) == [SEP] + CompileFrom(rest, false)
  {
    var part, more := PartRegex(rest[0]), CompileFrom(rest[1..], rest[0] != "**");
    assert [] + part == part;
    AppendAssoc([SEP], part, more);
  }

  lemma CompileNoSep(parts: seq<string>)
    requires parts != []
    ensures CompileFrom(parts, false) == PartRegex(parts[0]) + CompileFrom(parts[1..], parts[0] != "**")
  {
    assert [] + PartRegex(parts[0]) == PartRegex(parts[0]);
  }

  /** With a separator due, the remaining parts match nothing or a separator and a text. */
  lemma StartsWithSep(rest: seq<string>, v: string)
    ensures rest == [] ==> (MatchesAll(CompileFrom(rest, true), v) <==> v == [])
    ensures rest != [] ==> (MatchesAll(CompileFrom(rest, true), v)
                            <==> v != [] && v[0] == '/' && MatchesAll(CompileFrom(rest, false), v[1..]))
  {
    if rest == [] {
      MatchesNil(v);
    } else {
      var later := CompileFrom(rest, false);
      CompileSep(rest);
      if MatchesAll([SEP] + later, v) {
        var x, y := MatchesUncons(SEP, later, v);
        assert v[1..] == y;
      }
      if v != [] && v[0] == '/' && MatchesAll(later, v[1..]) {
        MatchesCons(SEP, later, "/", v[1..]);
        assert "/" + v[1..] == v;
      }
    }
  }

  /** A part, then whatever the remaining parts compile to. */
  lemma PartThenRest(part: string, rest: seq<string>, segments: seq<string>)
    requires '/' !in part && part != "**" && Pieces(segments)
    ensures MatchesAll(PartRegex(part) + CompileFrom(rest, true), Join(segments))
            <==> && SegmentMatches(part, segments[0])
                 && if rest == [] then |segments| == 1
                    else |segments| > 1 && MatchesAll(CompileFrom(rest, false), Join(segments[1..]))
  {
    var head, after := PartRegex(part), CompileFrom(rest, true);
    StartsWithSep(rest, AfterFirst(segments));
    assert |segments| > 1 ==> AfterFirst(segments)[1..] == Join(segments[1..]);
    if MatchesAll(head + after, Join(segments)) {
      PartThenRestCuts(part, rest, segments);
    }
    if SegmentMatches(part, segments[0]) && MatchesAll(after, AfterFirst(segments)) {
      PartMeaning(part, segments[0]);
      MatchesJoin(head, after, segments[0], AfterFirst(segments));
      JoinFirst(segments);
    }
  }

  /** One non-empty segment and its separator. */
  lemma SegmentAndSep(s: string) returns (seg: string)
    requires Matches(ANY_SEGMENTS.re, s)
    ensures s == seg + "/" && seg != [] && '/' !in seg
  {
    var u, v := CatSplit(ONE_SEGMENT, SEP, s);
    PlusNotSlash(u);
    seg := u;
  }

  lemma StarCons(r: Re, u: string, s: string)
    requires Matches(r, u) && Matches(Star(r), s)
    ensures Matches(Star(r), u + s)
  {
    hide Matches;
    var pieces := StarSplit(r, s);
    var all := [u] + pieces;
    assert all[1..] == pieces && EachMatches(r, all);
    StarMatches(r, all);
  }

  lemma AnySegmentsCons(seg: string, s: string)
    requires seg != [] && '/' !in seg && Matches(ANY_SEGMENTS, s)
    ensures Matches(ANY_SEGMENTS, seg + "/" + s)
  {
    PlusNotSlash(seg);
    CatMatches(ONE_SEGMENT, SEP, seg, "/");
    StarCons(ANY_SEGMENTS.re, seg + "/", s);
  }

  lemma AnySegmentsHead(s: string) returns (seg: string, rest: string)
    requires Matches(ANY_SEGMENTS, s) && s != []
    ensures s == seg + "/" + rest && seg != [] && '/' !in seg && Matches(ANY_SEGMENTS, rest)
  {
    var pieces :| Flat(pieces) == s && forall i :: 0 <= i < |pieces| ==> Matches(ANY_SEGMENTS.re, pieces[i]);
    seg := SegmentAndSep(pieces[0]);
    rest := Flat(pieces[1..]);
  }

  /** If `**` takes anything, it takes the first segment, which is not empty, and its separator. */
  lemma AnySegmentsTakes(rest: seq<Re>, segments: seq<string>, u: string, v: string)
    requires Pieces(segments) && Join(segments) == u + v && u != []
    requires Matches(ANY_SEGMENTS, u) && MatchesAll(rest, v)
    ensures |segments| > 1 && segments[0] != []
    ensures MatchesAll([ANY_SEGMENTS] + rest, Join(segments[1..]))
  {
    var seg, more := AnySegmentsHead(u);
    AppendAssoc(seg + "/", more, v);
    AppendAssoc(seg, "/", more + v);
    JoinFirst(segments);
    CutUnique(segments[0], AfterFirst(segments), seg, "/" + (more + v));
    MatchesCons(ANY_SEGMENTS, rest, more, v);
    assert AfterFirst(segments)[1..] == more + v;
  }

  /** `**` in front: either it stands for nothing, or it takes one non-empty segment. */
  lemma AnySegmentsUnfold(rest: seq<Re>, segments: seq<string>)
    requires Pieces(segments)
    ensures MatchesAll([ANY_SEGMENTS] + rest, Join(segments))
            <==> || MatchesAll(rest, Join(segments))
                 || (&& |segments| > 1 && segments[0] != []
                     && MatchesAll([ANY_SEGMENTS] + rest, Join(segments[1..])))
  {
    var text := Join(segments);
    if MatchesAll([ANY_SEGMENTS] + rest, text) {
      var u, v := MatchesUncons(ANY_SEGMENTS, rest, text);
      if u == [] {
        assert v == text;
      } else {
        AnySegmentsTakes(rest, segments, u, v);
      }
    }
    if MatchesAll(rest, text) {
      assert Flat([]) == [] && Matches(ANY_SEGMENTS, []);
      MatchesCons(ANY_SEGMENTS, rest, [], text);
      assert [] + text == text;
    }
    if |segments| > 1 && segments[0] != [] && MatchesAll([ANY_SEGMENTS] + rest, Join(segments[1..])) {
      var u, v := MatchesUncons(ANY_SEGMENTS, rest, Join(segments[1..]));
      AnySegmentsCons(segments[0], u);
      MatchesCons(ANY_SEGMENTS, rest, segments[0] + "/" + u, v);
      AppendAssoc(segments[0] + "/", u, v);
    }
  }

  // ----- Meaning of the whole expression ---------------------------------------------------------

  /** Reads the segments of a text left to right, as the compiled expression does: a part that is
      not last must be followed by a separator, and `**` gives back the text after the separators
      it consumed, which is empty when nothing follows it. */
  predicate Reads(parts: seq<string>, segments: seq<string>)
    requires segments != []
    decreases |parts|, |segments|
  {
    if parts == [] then segments == [""]
    else if parts[0] == "**" then
      || Reads(parts[1..], segments)
      || (|segments| > 1 && segments[0] != [] && Reads(parts, segments[1..]))
    else
      && SegmentMatches(parts[0], segments[0])
      && if |parts| == 1 then |segments| == 1 else |segments| > 1 && Reads(parts[1..], segments[1..])
  }

  /** The compiled expression reads exactly what `Reads` reads, for every list of parts and text. */
  lemma {:induction false} CompiledReads(parts: seq<string>, segments: seq<string>)
    requires Pieces(segments) && forall i :: 0 <= i < |parts| ==> '/' !in parts[i]
    ensures MatchesAll(CompileFrom(parts, false), Join(segments)) <==> Reads(parts, segments)
    decreases |parts|, |segments|
  {
    if parts == [] {
      MatchesNil(Join(segments));
    } else if parts[0] == "**" {
      var rest := CompileFrom(parts[1..], false);
      CompileNoSep(parts);
      AnySegmentsUnfold(rest, segments);
      CompiledReads(parts[1..], segments);
      if |segments| > 1 {
        CompiledReads(parts, segments[1..]);
      }
    } else {
      CompileNoSep(parts);
      PartThenRest(parts[0], parts[1..], segments);
      if |segments| > 1 && |parts| > 1 {
        CompiledReads(parts[1..], segments[1..]);
      }
    }
  }

  // ----- Against segment-wise matching ------------------------------------------------------------

  predicate EndsInStars(parts: seq<string>) {
    parts != [] && parts[|parts| - 1] == "**"
  }

  lemma {:induction false} NeedsASegment(parts: seq<string>)
    requires parts != [] && !EndsInStars(parts)
    ensures !GlobMatches(parts, [])
  {
    if |parts| > 1 {
      NeedsASegment(parts[1..]);
    }
  }

  /** Reading agrees with the glob unless the pattern ends in `**`. */
  lemma {:induction false} ReadsIsGlob(parts: seq<string>, segments: seq<string>)
    requires segments != [] && parts != [] && !EndsInStars(parts)
    ensures Reads(parts, segments) <==> GlobMatches(parts, segments)
    decreases |parts|, |segments|
  {
    NeedsASegment(parts);
    if |parts| > 1 {
      NeedsASegment(parts[1..]);
      ReadsIsGlob(parts[1..], segments);
    }
    if |segments| > 1 {
      ReadsIsGlob(parts, segments[1..]);
      if |parts| > 1 {
        ReadsIsGlob(parts[1..], segments[1..]);
      }
    }
  }

  /** With `**` at the end, only a text that ends in a separator can be read, up to that point. */
  lemma {:induction false} ReadsTrailingStars(parts: seq<string>, segments: seq<string>)
    requires segments != [] && (parts == [] || EndsInStars(parts))
    ensures Reads(parts, segments)
            <==> && segments[|segments| - 1] == []
                 && GlobMatches(parts, segments[..|segments| - 1])
    decreases |parts|, |segments|
  {
    var init := segments[..|segments| - 1];
    if parts != [] {
      ReadsTrailingStars(parts[1..], segments);
      if |segments| > 1 {
        assert segments[1..][..|segments| - 2] == init[1..];
        ReadsTrailingStars(parts, segments[1..]);
        ReadsTrailingStars(parts[1..], segments[1..]);
      }
    }
  }

  /** What a pattern accepts, said with segments only. */
  predicate Meaning(parts: seq<string>, text: string) {
    var segments := Split(text);
    if EndsInStars(parts) then
      segments[|segments| - 1] == [] && GlobMatches(parts, segments[..|segments| - 1])
    else GlobMatches(parts, segments)
  }

  function PatternParts(pattern: string): seq<string> {
    Split(Normalize(pattern))
  }

  lemma CompiledMeaning(parts: seq<string>, text: string)
    requires parts != [] && forall i :: 0 <= i < |parts| ==> '/' !in parts[i]
    ensures MatchesAll(CompileFrom(parts, false), text) <==> Meaning(parts, text)
  {
    JoinSplit(text);
    CompiledReads(parts, Split(text));
    if EndsInStars(parts) {
      ReadsTrailingStars(parts, Split(text));
    } else {
      ReadsIsGlob(parts, Split(text));
    }
  }

  /** What a compiled pattern accepts, for every pattern and every text: the segment-wise meaning,
      of the text itself or of the text without one final newline. */
  lemma AcceptsMeaning(pattern: string, text: string)
    ensures var parts := PatternParts(pattern);
            Accepts(CompileFrom(parts, false), text)
            <==> || Meaning(parts, text)
                 || (text != [] && text[|text| - 1] == '\n' && Meaning(parts, text[..|text| - 1]))
  {
    CompiledMeaning(PatternParts(pattern), text);
    if text != [] {
      CompiledMeaning(PatternParts(pattern), text[..|text| - 1]);
    }
  }

  /** A file path: no empty segment, no newline at the end. */
  predicate IsFilePath(path: string) {
    && (forall i :: 0 <= i < |Split(path)| ==> Split(path)[i] != [])
    && (path != [] ==> path[|path| - 1] != '\n')
  }

  /** The compiler preserves meaning on a file path exactly when it is not the case that the
      pattern ends in `**` and the glob accepts the path. */
  lemma PreservesMeaning(pattern: string, path: string)
    requires IsFilePath(path)
    ensures var parts := PatternParts(pattern);
            (Accepts(CompileFrom(parts, false), path) <==> GlobMatches(parts, Split(path)))
            <==> !(EndsInStars(parts) && GlobMatches(parts, Split(path)))
  {
    AcceptsMeaning(pattern, path);
  }

  // ----- Which patterns are compiled faithfully ---------------------------------------------------------

  /** A slash-free, non-empty segment that a non-empty part accepts. */
  function SampleChars(pat: string): (s: string)
    ensures |s| == |pat| && ('/' !in pat ==> '/' !in s)
  {
    if pat == [] then [] else [if pat[0] == '*' || pat[0] == '?' then 'a' else pat[0]] + SampleChars(pat[1..])
  }

  lemma {:induction false} SampleMatches(pat: string)
    ensures CharsMatch(pat, SampleChars(pat))
  {
    if pat != [] {
      var s := SampleChars(pat);
      SampleMatches(pat[1..]);
      CharsMatchCons(pat, s[..1], s[1..]);
      assert s[..1] + s[1..] == s;
    }
  }

  /** One segment for each part. */
  function Sample(parts: seq<string>): (segments: seq<string>)
    ensures |segments| == |parts|
  {
    if parts == [] then [] else [if parts[0] == "**" then "a" else SampleChars(parts[0])] + Sample(parts[1..])
  }

  lemma {:induction false} SampleIsAccepted(parts: seq<string>)
    requires forall i :: 0 <= i < |parts| ==> parts[i] != [] && '/' !in parts[i]
    ensures GlobMatches(parts, Sample(parts))
    ensures forall i :: 0 <= i < |parts| ==> Sample(parts)[i] != [] && '/' !in Sample(parts)[i]
    ensures EndsInStars(parts) ==> Sample(parts)[|parts| - 1] == "a"
  {
    if parts != [] {
      SampleIsAccepted(parts[1..]);
      SampleMatches(parts[0]);
      assert Sample(parts)[1..] == Sample(parts[1..]);
      if parts[0] == "**" {
        assert GlobMatches(parts, Sample(parts[1..]));
      }
    }
  }

  lemma {:induction false} JoinEnd(segments: seq<string>)
    requires segments != [] && segments[|segments| - 1] != []
    ensures var s, last := Join(segments), segments[|segments| - 1];
            s != [] && s[|s| - 1] == last[|last| - 1]
  {
    if |segments| > 1 {
      JoinEnd(segments[1..]);
    }
  }

  /** A part between two adjacent slashes accepts only the empty segment, which no file path has. */
  lemma {:induction false} EmptyPartAcceptsNoPath(parts: seq<string>, segments: seq<string>)
    requires [] in parts && forall i :: 0 <= i < |segments| ==> segments[i] != []
    ensures !GlobMatches(parts, segments)
    decreases |parts|, |segments|
  {
    if parts[0] != [] {
      assert [] in parts[1..];
      EmptyPartAcceptsNoPath(parts[1..], segments);
      if segments != [] {
        EmptyPartAcceptsNoPath(parts[1..], segments[1..]);
        EmptyPartAcceptsNoPath(parts, segments[1..]);
      }
    }
  }

  /** The compiled pattern accepts exactly the file paths the glob accepts. */
  ghost predicate Faithful(pattern: string) {
    forall path :: IsFilePath(path) ==>
      (Accepts(CompileFrom(PatternParts(pattern), false), path) <==> GlobMatches(PatternParts(pattern), Split(path)))
  }

  /** A path that the glob accepts and the compiled pattern rejects. */
  lemma LostPath(pattern: string) returns (path: string)
    requires EndsInStars(PatternParts(pattern)) && [] !in PatternParts(pattern)
    ensures IsFilePath(path) && GlobMatches(PatternParts(pattern), Split(path))
    ensures !Accepts(CompileFrom(PatternParts(pattern), false), path)
  {
    var parts := PatternParts(pattern);
    forall i | 0 <= i < |parts|
      ensures parts[i] != []
    {
      assert parts[i] in parts;
    }
    SampleIsAccepted(parts);
    path := Join(Sample(parts));
    SplitJoin(Sample(parts));
    JoinEnd(Sample(parts));
    PreservesMeaning(pattern, path);
  }

  /** Exactly the patterns that end in `**`, and have no part between adjacent slashes, lose file paths. */
  lemma FaithfulIff(pattern: string)
    ensures Faithful(pattern) <==> !(EndsInStars(PatternParts(pattern)) && [] !in PatternParts(pattern))
  {
    var parts := PatternParts(pattern);
    if EndsInStars(parts) && [] !in parts {
      var path := LostPath(pattern);
    } else {
      forall path | IsFilePath(path)
        ensures Accepts(CompileFrom(parts, false), path) <==> GlobMatches(parts, Split(path))
      {
        PreservesMeaning(pattern, path);
        if [] in parts {
          EmptyPartAcceptsNoPath(parts, Split(path));
        }
      }
    }
  }

  /** The pattern `**` is compiled to an expression that rejects every one-segment path. */
  lemma TrailingStarsRejectFiles()
    ensures var parts, path := PatternParts("**"), "a";
            && IsFilePath(path) && GlobMatches(parts, Split(path))
            && !Accepts(CompileFrom(parts, false), path)
  {
    var parts, path := PatternParts("**"), "a";
    assert Normalize("**") == "**";
    SplitPiece("**", "");
    SplitPiece("a", "");
    assert parts[1..] == [] && Split(path)[1..] == [];
    assert GlobMatches(parts, []);
    PreservesMeaning("**", path);
  }
}
