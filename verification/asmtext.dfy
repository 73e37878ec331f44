/**
  The text handling of the assembler (`CompiladorDeAssembly.py`): Python's
  notion of whitespace, `strip`, `upper` and `replace` on single
  characters, splitting the source into lines, cutting comments, the
  `label:` pattern of pass 1 and the operand tokenizer of pass 2. Each
  regular expression of the source is written as a scanner over
  characters; the word class `\w` is taken to be ASCII letters, digits
  and the underscore.
 */
module AsmText {
  import opened Results

  // ----- character classes -----

  /** `str.isspace`: the characters `\s` and `strip()` treat as whitespace. */
  predicate IsSpace(c: char)
  {
    || c == ' ' || '\t' <= c <= '\r' || '\U{1C}' <= c <= '\U{1F}'
    || c == '\U{85}' || c == '\U{A0}' || c == '\U{1680}'
    || '\U{2000}' <= c <= '\U{200A}' || c == '\U{2028}' || c == '\U{2029}'
    || c == '\U{202F}' || c == '\U{205F}' || c == '\U{3000}'
  }

  /** `[A-Za-z_]`, the first character of a label. */
  predicate IsIdentStart(c: char)
  {
    'A' <= c <= 'Z' || 'a' <= c <= 'z' || c == '_'
  }

  /** `\w`, ASCII letters, digits and `_`. */
  predicate IsWordChar(c: char)
  {
    IsIdentStart(c) || '0' <= c <= '9'
  }

  /** A label as pass 1 accepts it: `[A-Za-z_]\w*`. */
  predicate IsIdentifier(s: string)
  {
    |s| > 0 && IsIdentStart(s[0]) && forall i | 0 <= i < |s| :: IsWordChar(s[i])
  }

  // ----- whitespace -----

  /** `s.lstrip()`: the suffix left after dropping leading whitespace. */
  function LStrip(s: string): (r: string)
    ensures |r| <= |s| && r == s[|s| - |r|..]
    ensures forall i | 0 <= i < |s| - |r| :: IsSpace(s[i])
    ensures r != [] ==> !IsSpace(r[0])
  {
    if s != [] && IsSpace(s[0]) then LStrip(s[1..]) else s
  }

  /** `s.rstrip()`: the prefix left after dropping trailing whitespace. */
  function RStrip(s: string): (r: string)
    ensures |r| <= |s| && r == s[..|r|]
    ensures forall i | |r| <= i < |s| :: IsSpace(s[i])
    ensures r != [] ==> !IsSpace(r[|r| - 1])
  {
    if s != [] && IsSpace(s[|s| - 1]) then RStrip(s[..|s| - 1]) else s
  }

  /** No whitespace at either end. */
  predicate Trimmed(s: string)
  {
    s != [] ==> !IsSpace(s[0]) && !IsSpace(s[|s| - 1])
  }

  /** r is the slice of s from i on, with only whitespace around it in s. */
  predicate SpaceAround(s: string, i: nat, r: string)
  {
    && i + |r| <= |s| && s[i..i + |r|] == r
    && (forall k | 0 <= k < i :: IsSpace(s[k]))
    && (forall k | i + |r| <= k < |s| :: IsSpace(s[k]))
  }

  /** `s.strip()`: s with its leading and its trailing whitespace removed. */
  function Strip(s: string): (r: string)
    ensures Trimmed(r)
    ensures SpaceAround(s, |s| - |LStrip(s)|, r)
  {
    var l := LStrip(s);
    var r := RStrip(l);
    assert r == [] ==> l == [];
    assert r != [] ==> l[0] == s[|s| - |l|];
    SpaceAroundJoin(s, l, r);
    r
  }

  /** Whitespace dropped from the front and then from the back of what is
      left is whitespace around the rest. */
  lemma SpaceAroundJoin(s: string, l: string, r: string)
    requires |l| <= |s| && l == s[|s| - |l|..] && forall k | 0 <= k < |s| - |l| :: IsSpace(s[k])
    requires |r| <= |l| && r == l[..|r|] && forall k | |r| <= k < |l| :: IsSpace(l[k])
    ensures SpaceAround(s, |s| - |l|, r)
  {
    var n := |s| - |l|;
    assert s[n..n + |r|] == r;
    forall k | n + |r| <= k < |s|
      ensures IsSpace(s[k])
    {
      assert s[k] == l[k - n];
    }
  }

  /** Text with no whitespace at either end is its own `strip()`. */
  lemma StripTrimmed(s: string)
    requires Trimmed(s)
    ensures Strip(s) == s
  {
    assert LStrip(s) == s;
    assert RStrip(s) == s;
  }

  /** `strip()` leaves nothing exactly when the text is all whitespace. */
  lemma StripBlank(s: string)
    ensures Strip(s) == [] <==> forall i | 0 <= i < |s| :: IsSpace(s[i])
  {
    var l := LStrip(s);
    assert RStrip(l) == [] ==> l == [];
    if l != [] {
      assert l[0] == s[|s| - |l|];
    }
  }

  /** r is the slice of s from i on, with only copies of c around it in s. */
  predicate CharAround(s: string, i: nat, r: string, c: char)
  {
    && i + |r| <= |s| && s[i..i + |r|] == r
    && (forall k | 0 <= k < i :: s[k] == c)
    && (forall k | i + |r| <= k < |s| :: s[k] == c)
  }

  /** `s.strip(c)`: leading and trailing copies of one character dropped. */
  function StripChar(s: string, c: char): (r: string)
    ensures r != [] ==> r[0] != c && r[|r| - 1] != c
    ensures exists i: nat :: CharAround(s, i, r, c)
    decreases |s|
  {
    if s != [] && s[0] == c then
      var r := StripChar(s[1..], c);
      CharAroundFront(s, s[1..], r, c);
      r
    else if s != [] && s[|s| - 1] == c then
      var r := StripChar(s[..|s| - 1], c);
      CharAroundBack(s, s[..|s| - 1], r, c);
      r
    else
      assert CharAround(s, 0, s, c);
      s
  }

  /** One more copy of c in front keeps r surrounded by c. */
  lemma CharAroundFront(s: string, t: string, r: string, c: char)
    requires s != [] && s[0] == c && t == s[1..] && exists i: nat :: CharAround(t, i, r, c)
    ensures exists i: nat :: CharAround(s, i, r, c)
  {
    var i: nat :| CharAround(t, i, r, c);
    assert s[i + 1..i + 1 + |r|] == t[i..i + |r|];
    assert CharAround(s, i + 1, r, c);
  }

  /** One more copy of c behind keeps r surrounded by c. */
  lemma CharAroundBack(s: string, t: string, r: string, c: char)
    requires s != [] && s[|s| - 1] == c && t == s[..|s| - 1] && exists i: nat :: CharAround(t, i, r, c)
    ensures exists i: nat :: CharAround(s, i, r, c)
  {
    var i: nat :| CharAround(t, i, r, c);
    assert s[i..i + |r|] == t[i..i + |r|];
    assert CharAround(s, i, r, c);
  }

  // ----- single-character rewriting -----

  /** `s.replace(a, b)` for one-character a and b. */
  function Replace(s: string, a: char, b: char): (r: string)
    ensures |r| == |s|
    ensures forall i | 0 <= i < |s| :: r[i] == if s[i] == a then b else s[i]
  {
    if s == [] then [] else Replace(s[..|s| - 1], a, b) + [if s[|s| - 1] == a then b else s[|s| - 1]]
  }

  /** `s.replace(a, "")`: every a removed, everything else kept in order. */
  function Remove(s: string, a: char): (r: string)
    ensures a !in r
    ensures forall c | c != a :: multiset(r)[c] == multiset(s)[c]
  {
    if s == [] then []
    else
      var init := Remove(s[..|s| - 1], a);
      assert s == s[..|s| - 1] + [s[|s| - 1]];
      if s[|s| - 1] == a then init else init + [s[|s| - 1]]
  }

  /** Removing works piecewise, so the characters kept stay in their order. */
  lemma {:induction false} RemoveAppend(x: string, y: string, a: char)
    ensures Remove(x + y, a) == Remove(x, a) + Remove(y, a)
    decreases |y|
  {
    if y != [] {
      var y0 := y[..|y| - 1];
      assert (x + y)[..|x + y| - 1] == x + y0;
      RemoveAppend(x, y0, a);
    } else {
      assert x + y == x;
    }
  }

  /** Removing a character that does not occur changes nothing. */
  lemma {:induction false} RemoveAbsent(s: string, a: char)
    requires a !in s
    ensures Remove(s, a) == s
  {
    if s != [] {
      RemoveAbsent(s[..|s| - 1], a);
      assert s == s[..|s| - 1] + [s[|s| - 1]];
    }
  }

  /** ASCII letters in upper case; every other character unchanged. */
  function UpperChar(c: char): char
  {
    if 'a' <= c <= 'z' then (c as int - 32) as char else c
  }

  /** `s.upper()` on ASCII letters. */
  function Upper(s: string): (r: string)
    ensures |r| == |s|
    ensures forall i | 0 <= i < |s| :: r[i] == UpperChar(s[i])
  {
    if s == [] then [] else [UpperChar(s[0])] + Upper(s[1..])
  }

  /** Text without lower-case ASCII letters is its own `upper()`. */
  lemma UpperIdle(s: string)
    requires forall i | 0 <= i < |s| :: !('a' <= s[i] <= 'z')
    ensures Upper(s) == s
  {
  }

  // ----- lines and comments -----

  /** The lines joined back with newlines between them. */
  function JoinLines(lines: seq<string>): string
    requires |lines| > 0
  {
    if |lines| == 1 then lines[0] else lines[0] + "\n" + JoinLines(lines[1..])
  }

  /** `text.split("\n")`: at least one line, none holding a newline, and
      joining them with newlines gives the text back. */
  function SplitLines(text: string): (lines: seq<string>)
    ensures |lines| > 0
    ensures forall i | 0 <= i < |lines| :: '\n' !in lines[i]
    ensures JoinLines(lines) == text
    decreases |text|
  {
    var k := FirstNewline(text);
    if k == |text| then [text]
    else
      var rest := SplitLines(text[k + 1..]);
      assert text == text[..k] + "\n" + text[k + 1..];
      [text[..k]] + rest
  }

  function FirstNewline(s: string): (k: nat)
    ensures k <= |s| && '\n' !in s[..k]
    ensures k < |s| ==> s[k] == '\n'
  {
    if s == [] then 0
    else if s[0] == '\n' then 0
    else
      var k := FirstNewline(s[1..]);
      assert s[..k + 1] == [s[0]] + s[1..][..k];
      k + 1
  }

  /** Splitting lines joined with newlines gives the same lines back. */
  lemma {:induction false} SplitJoin(lines: seq<string>)
    requires |lines| > 0 && forall i | 0 <= i < |lines| :: '\n' !in lines[i]
    ensures SplitLines(JoinLines(lines)) == lines
    decreases |lines|
  {
    var text, first := JoinLines(lines), lines[0];
    if |lines| == 1 {
      FirstNewlineOf(first, "");
      assert first + "" == first;
    } else {
      var tail := JoinLines(lines[1..]);
      assert text == first + ("\n" + tail);
      FirstNewlineOf(first, "\n" + tail);
      assert text[..|first|] == first;
      assert text[|first| + 1..] == tail;
      SplitJoin(lines[1..]);
      assert SplitLines(text) == [first] + SplitLines(tail);
    }
  }

  lemma {:induction false} FirstNewlineOf(a: string, b: string)
    requires '\n' !in a && (b == [] || b[0] == '\n')
    ensures FirstNewline(a + b) == |a|
    decreases |a|
  {
    if a != [] {
      assert (a + b)[1..] == a[1..] + b;
      FirstNewlineOf(a[1..], b);
    } else {
      assert a + b == b;
    }
  }

  /** A comment begins at i: a `;` or a `//`. */
  predicate CommentAt(s: string, i: nat)
    requires i < |s|
  {
    s[i] == ';' || (s[i] == '/' && i + 1 < |s| && s[i + 1] == '/')
  }

  /** No comment marker anywhere in s. */
  predicate CommentFree(s: string)
  {
    forall i | 0 <= i < |s| :: !CommentAt(s, i)
  }

  /** The text `re.sub` leaves holds no comment marker. */
  lemma StripCommentFree(s: string)
    ensures CommentFree(StripComment(s))
  {
    var r := StripComment(s);
    forall i | 0 <= i < |r|
      ensures !CommentAt(r, i)
    {
      assert !CommentAt(s, i);
      assert r[i] == s[i];
      if i + 1 < |r| {
        assert r[i + 1] == s[i + 1];
      }
    }
  }

  /** A piece of comment-free text is comment-free. */
  lemma CommentFreeSlice(s: string, a: nat, b: nat)
    requires a <= b <= |s| && CommentFree(s)
    ensures CommentFree(s[a..b])
  {
    forall i | 0 <= i < b - a
      ensures !CommentAt(s[a..b], i)
    {
      assert !CommentAt(s, a + i);
    }
  }

  /** `re.sub(r";.*|//.*", "", line)` on a line without newlines: the text
      before the first comment marker, which holds no marker itself. */
  function StripComment(s: string): (r: string)
    ensures |r| <= |s| && r == s[..|r|]
    ensures forall i | 0 <= i < |r| :: !CommentAt(s, i)
    ensures |r| < |s| ==> CommentAt(s, |r|)
  {
    if s == [] then []
    else if CommentAt(s, 0) then []
    else
      var rest := StripComment(s[1..]);
      assert forall i | 1 <= i < |s| :: CommentAt(s, i) == CommentAt(s[1..], i - 1);
      [s[0]] + rest
  }

  // ----- the label pattern -----

  /** Number of leading characters of s[i..] satisfying the class. */
  function SpaceRun(s: string, i: nat): (j: nat)
    requires i <= |s|
    ensures i <= j <= |s|
    ensures forall k | i <= k < j :: IsSpace(s[k])
    ensures j < |s| ==> !IsSpace(s[j])
    decreases |s| - i
  {
    if i < |s| && IsSpace(s[i]) then SpaceRun(s, i + 1) else i
  }

  function WordRun(s: string, i: nat): (j: nat)
    requires i <= |s|
    ensures i <= j <= |s|
    ensures forall k | i <= k < j :: IsWordChar(s[k])
    ensures j < |s| ==> !IsWordChar(s[j])
    decreases |s| - i
  {
    if i < |s| && IsWordChar(s[i]) then WordRun(s, i + 1) else i
  }

  /** `^\s*([A-Za-z_]\w*)\s*:\s*(.*)$` on a line without newlines: the
      label and the text after the colon and its following whitespace. */
  function MatchLabel(line: string): (r: Option<(string, string)>)
    ensures r.Some? ==> IsIdentifier(r.value.0)
    ensures r.Some? ==> |r.value.1| < |line| && r.value.1 == line[|line| - |r.value.1|..]
    ensures r.Some? ==> r.value.1 == [] || !IsSpace(r.value.1[0])
  {
    var i := SpaceRun(line, 0);
    if i < |line| && IsIdentStart(line[i]) then
      var j := WordRun(line, i);
      var k := SpaceRun(line, j);
      if k < |line| && line[k] == ':' then
        var m := SpaceRun(line, k + 1);
        assert IsIdentifier(line[i..j]) by {
          assert line[i..j][0] == line[i];
          assert forall x | 0 <= x < j - i :: line[i..j][x] == line[i + x];
        }
        Some((line[i..j], line[m..]))
      else None
    else None
  }

  /** The regular expression matches every line of that shape: leading
      whitespace, an identifier, whitespace, a colon, and the rest, whose
      leading whitespace the match drops. */
  lemma MatchLabelComplete(a: string, name: string, b: string, rest: string)
    requires forall i | 0 <= i < |a| :: IsSpace(a[i])
    requires forall i | 0 <= i < |b| :: IsSpace(b[i])
    requires IsIdentifier(name)
    ensures MatchLabel(a + name + b + ":" + rest) == Some((name, LStrip(rest)))
  {
    LabelLineShape(a, name, b, rest);
    LabelLineMatches(a + name + b + ":" + rest, |a|, |a| + |name|, |a| + |name| + |b|, name, rest);
  }

  /** The same, for a line already known to have that shape. */
  lemma LabelLineMatches(line: string, i: nat, j: nat, k: nat, name: string, rest: string)
    requires i < j <= k < |line|
    requires forall x | 0 <= x < i :: IsSpace(line[x])
    requires !IsSpace(line[i]) && IsIdentStart(line[i])
    requires forall x | i <= x < j :: IsWordChar(line[x])
    requires !IsWordChar(line[j])
    requires forall x | j <= x < k :: IsSpace(line[x])
    requires line[k] == ':' && line[i..j] == name && line[k + 1..] == rest
    ensures MatchLabel(line) == Some((name, LStrip(rest)))
  {
    SpaceRunFrom(line, 0, i);
    WordRunFrom(line, i, j);
    SpaceRunFrom(line, j, k);
    AfterColon(line, k, rest);
    MatchLabelAt(line, i, j, k, name, LStrip(rest));
  }

  /** The whitespace run after the colon is what `lstrip` drops. */
  lemma AfterColon(line: string, k: nat, rest: string)
    requires k < |line| && line[k + 1..] == rest
    ensures line[SpaceRun(line, k + 1)..] == LStrip(rest)
  {
    var m := SpaceRun(line, k + 1);
    assert line[m..] == rest[m - (k + 1)..];
    LStripIsSuffix(rest, m - (k + 1));
  }

  /** Where the pieces of a label line sit. */
  lemma LabelLineShape(a: string, name: string, b: string, rest: string)
    requires forall i | 0 <= i < |a| :: IsSpace(a[i])
    requires forall i | 0 <= i < |b| :: IsSpace(b[i])
    requires IsIdentifier(name)
    ensures var line, i, j, k := a + name + b + ":" + rest, |a|, |a| + |name|, |a| + |name| + |b|;
      && i < j <= k < |line|
      && (forall x | 0 <= x < i :: IsSpace(line[x]))
      && !IsSpace(line[i]) && IsIdentStart(line[i])
      && (forall x | i <= x < j :: IsWordChar(line[x]))
      && !IsWordChar(line[j])
      && (forall x | j <= x < k :: IsSpace(line[x]))
      && line[k] == ':' && line[i..j] == name && line[k + 1..] == rest
  {
    var line := a + name + b + ":" + rest;
    var i, j, k := |a|, |a| + |name|, |a| + |name| + |b|;
    assert forall x | 0 <= x < i :: line[x] == a[x];
    assert forall x | i <= x < j :: line[x] == name[x - i];
    assert forall x | j <= x < k :: line[x] == b[x - j];
    assert line[k] == ':';
    assert line[k + 1..] == rest;
    assert line[i..j] == name;
  }

  /** The body of MatchLabel once its three runs are known. */
  lemma MatchLabelAt(line: string, i: nat, j: nat, k: nat, name: string, tail: string)
    requires i < |line| && SpaceRun(line, 0) == i && IsIdentStart(line[i])
    requires i <= j <= |line| && WordRun(line, i) == j && line[i..j] == name
    requires j <= k < |line| && SpaceRun(line, j) == k && line[k] == ':'
    requires line[SpaceRun(line, k + 1)..] == tail
    ensures MatchLabel(line) == Some((name, tail))
  {
  }

  lemma {:induction false} SpaceRunFrom(s: string, i: nat, j: nat)
    requires i <= j < |s|
    requires forall x | i <= x < j :: IsSpace(s[x])
    requires !IsSpace(s[j])
    ensures SpaceRun(s, i) == j
    decreases j - i
  {
    if i < j {
      SpaceRunFrom(s, i + 1, j);
    }
  }

  lemma {:induction false} WordRunFrom(s: string, i: nat, j: nat)
    requires i <= j < |s|
    requires forall x | i <= x < j :: IsWordChar(s[x])
    requires !IsWordChar(s[j])
    ensures WordRun(s, i) == j
    decreases j - i
  {
    if i < j {
      WordRunFrom(s, i + 1, j);
    }
  }

  /** Dropping the n leading whitespace characters (and no more) is LStrip. */
  lemma {:induction false} LStripIsSuffix(s: string, n: nat)
    requires n <= |s|
    requires forall x | 0 <= x < n :: IsSpace(s[x])
    requires n < |s| ==> !IsSpace(s[n])
    ensures LStrip(s) == s[n..]
    decreases n
  {
    if n > 0 {
      assert s[1..][n - 1..] == s[n..];
      LStripIsSuffix(s[1..], n - 1);
    }
  }

  /** The `while True` loop of pass 1: every leading `label:` in order, and
      the text after the last one. */
  function PeelLabels(line: string): (r: (seq<string>, string))
    ensures forall i | 0 <= i < |r.0| :: IsIdentifier(r.0[i])
    ensures MatchLabel(r.1) == None
    decreases |line|
  {
    match MatchLabel(line)
    case None => ([], line)
    case Some((name, rest)) =>
      var (labels, tail) := PeelLabels(rest);
      ([name] + labels, tail)
  }

  /** What is left after the labels is the end of the line. */
  lemma {:induction false} PeelLabelsSuffix(line: string)
    ensures var tail := PeelLabels(line).1; |tail| <= |line| && tail == line[|line| - |tail|..]
    decreases |line|
  {
    match MatchLabel(line)
    case None =>
    case Some((name, rest)) =>
      PeelLabelsSuffix(rest);
      SuffixOfSuffix(line, rest, PeelLabels(rest).1);
  }

  lemma SuffixOfSuffix(s: string, t: string, u: string)
    requires |t| <= |s| && t == s[|s| - |t|..]
    requires |u| <= |t| && u == t[|t| - |u|..]
    ensures u == s[|s| - |u|..]
  {
    assert forall i | 0 <= i < |u| :: u[i] == s[|s| - |u| + i];
  }

  // ----- the operand tokenizer -----

  /** `[\[\]\w']` */
  predicate InBracketClass(c: char)
  {
    c == '[' || c == ']' || c == '\'' || IsWordChar(c)
  }

  /** `[#\-?\w]` */
  predicate InSignClass(c: char)
  {
    c == '#' || c == '-' || c == '?' || IsWordChar(c)
  }

  predicate InClass(c: char, bracket: bool)
  {
    if bracket then InBracketClass(c) else InSignClass(c)
  }

  /** Characters that end up in some token. */
  predicate Kept(c: char)
  {
    InBracketClass(c) || InSignClass(c)
  }

  /** The longest prefix of s inside the class. */
  function Span(s: string, bracket: bool): (n: nat)
    ensures n <= |s|
    ensures forall i | 0 <= i < n :: InClass(s[i], bracket)
    ensures n < |s| ==> !InClass(s[n], bracket)
  {
    if s != [] && InClass(s[0], bracket) then 1 + Span(s[1..], bracket) else 0
  }

  /** `re.findall(r"[\[\]\w']+|[#\-?\w]+", s)`: at each position the first
      alternative takes the longest run it can, else the second does, else
      the character is skipped. */
  function Tokens(s: string): (ts: seq<string>)
    ensures forall i | 0 <= i < |ts| :: ts[i] != []
    ensures forall i, j | 0 <= i < |ts| && 0 <= j < |ts[i]| :: Kept(ts[i][j])
    decreases |s|
  {
    if s == [] then []
    else if InBracketClass(s[0]) then
      var n := Span(s, true);
      [s[..n]] + Tokens(s[n..])
    else if InSignClass(s[0]) then
      var n := Span(s, false);
      [s[..n]] + Tokens(s[n..])
    else Tokens(s[1..])
  }

  function Concat(ts: seq<string>): string
  {
    if ts == [] then [] else ts[0] + Concat(ts[1..])
  }

  function Filter(s: string): (r: string)
    ensures forall i | 0 <= i < |r| :: Kept(r[i])
  {
    if s == [] then [] else (if Kept(s[0]) then [s[0]] else []) + Filter(s[1..])
  }

  /** No character is lost or invented: the tokens, run together, are
      exactly the characters of s that belong to either class, in order. */
  lemma {:induction false} TokensCoverKept(s: string)
    ensures Concat(Tokens(s)) == Filter(s)
    decreases |s|
  {
    if s != [] {
      if InBracketClass(s[0]) || InSignClass(s[0]) {
        var n := Span(s, InBracketClass(s[0]));
        TokensCoverKept(s[n..]);
        assert Concat(Tokens(s)) == s[..n] + Filter(s[n..]);
        FilterKeepsRun(s, n);
      } else {
        TokensCoverKept(s[1..]);
      }
    }
  }

  lemma {:induction false} FilterKeepsRun(s: string, n: nat)
    requires n <= |s| && forall i | 0 <= i < n :: Kept(s[i])
    ensures Filter(s) == s[..n] + Filter(s[n..])
    decreases n
  {
    if n > 0 {
      FilterKeepsRun(s[1..], n - 1);
      assert s[1..][n - 1..] == s[n..];
      assert s[..n] == [s[0]] + s[1..][..n - 1];
    }
  }
}
