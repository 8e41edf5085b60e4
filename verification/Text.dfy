/**
 Strings as the daemon's text handling sees them: character classes, trimming,
 longest-prefix scans, `std::getline` line splitting and byte-wise ordering.
 */
module Text {

  datatype Option<+T> = None | Some(value: T)

  datatype Result<+T> = Ok(value: T) | Err(error: string)

  // ---------------------------------------------------------------- characters

  /** `std::isspace` in the C locale. */
  predicate IsSpace(c: char) {
    c == ' ' || c == '\t' || c == '\n' || c == '\r' || c == '\U{0B}' || c == '\U{0C}'
  }

  predicate NotSpace(c: char) { !IsSpace(c) }

  predicate IsDigit(c: char) { '0' <= c <= '9' }

  /** The characters the sample parser accepts in a metric name. */
  predicate IsNameChar(c: char) {
    'a' <= c <= 'z' || 'A' <= c <= 'Z' || IsDigit(c) || c == '_' || c == ':'
  }

  predicate NotNewline(c: char) { c != '\n' }

  predicate NotCloseBrace(c: char) { c != '}' }

  predicate NotHash(c: char) { c != '#' }

  predicate NotBlank(c: char) { c != ' ' }

  predicate NotComma(c: char) { c != ',' }

  /** Every character of `s` satisfies `p`. */
  ghost predicate All(s: string, p: char -> bool) {
    forall i :: 0 <= i < |s| ==> p(s[i])
  }

  function LowerChar(c: char): char {
    if 'A' <= c <= 'Z' then c - 'A' + 'a' else c
  }

  function Lower(s: string): string {
    seq(|s|, i requires 0 <= i < |s| => LowerChar(s[i]))
  }

  // ---------------------------------------------------------------- scanning

  /** Length of the longest prefix of `s` whose characters all satisfy `p`. */
  function Span(s: string, p: char -> bool): (n: nat)
    ensures n <= |s|
    ensures forall i :: 0 <= i < n ==> p(s[i])
    ensures n < |s| ==> !p(s[n])
  {
    if s == [] || !p(s[0]) then 0 else 1 + Span(s[1..], p)
  }

  /** The scan of a concatenation stops at the seam when the second part starts with a stopper. */
  lemma SpanSeam(a: string, b: string, p: char -> bool)
    requires All(a, p)
    requires b == [] || !p(b[0])
    ensures Span(a + b, p) == |a|
  {
    assert forall i :: 0 <= i < |a| ==> (a + b)[i] == a[i];
    assert b != [] ==> (a + b)[|a|] == b[0];
  }

  /** The longest prefix of `s` in `p`, and what follows it. */
  function Take(s: string, p: char -> bool): (t: string)
    ensures |t| == Span(s, p)
  {
    s[..Span(s, p)]
  }

  function Rest(s: string, p: char -> bool): (t: string)
    ensures |t| == |s| - Span(s, p)
  {
    s[Span(s, p)..]
  }

  lemma TakeSeam(a: string, b: string, p: char -> bool)
    requires All(a, p)
    requires b == [] || !p(b[0])
    ensures Take(a + b, p) == a && Rest(a + b, p) == b
  {
    SpanSeam(a, b, p);
  }

  lemma TakeAll(a: string, p: char -> bool)
    requires All(a, p)
    ensures Take(a, p) == a && Rest(a, p) == ""
  {
    SpanSeam(a, "", p);
    assert a + "" == a;
  }

  /** A scan that stopped for the right reason has found the longest prefix. */
  lemma SpanIs(s: string, p: char -> bool, n: nat)
    requires n <= |s| && (forall i :: 0 <= i < n ==> p(s[i])) && (n < |s| ==> !p(s[n]))
    ensures Span(s, p) == n
  {
  }

  /** `word` is a prefix of `s` up to the case of letters in `s`. */
  predicate StartsWithIgnoringCase(s: string, word: string) {
    word == [] || (s != [] && LowerChar(s[0]) == word[0] && StartsWithIgnoringCase(s[1..], word[1..]))
  }

  predicate StartsWith(s: string, prefix: string) {
    |prefix| <= |s| && s[..|prefix|] == prefix
  }

  lemma StartsWithFirst(s: string, prefix: string)
    requires prefix != []
    ensures StartsWith(s, prefix) ==> s != [] && s[0] == prefix[0]
  {
    if StartsWith(s, prefix) { assert s[..|prefix|][0] == s[0]; }
  }

  lemma StartsWithAt(s: string, prefix: string, j: nat)
    requires j < |prefix|
    ensures StartsWith(s, prefix) ==> |s| > j && s[j] == prefix[j]
  {
    if StartsWith(s, prefix) { assert s[..|prefix|][j] == s[j]; }
  }

  /** `key` occurs somewhere in `s`. */
  predicate Contains(s: string, key: string) {
    exists i :: 0 <= i <= |s| && StartsWith(s[i..], key)
  }

  lemma ContainsFirst(s: string, key: string)
    requires key != ""
    ensures Contains(s, key) ==> exists i :: 0 <= i < |s| && s[i] == key[0]
  {
    if Contains(s, key) {
      var i :| 0 <= i <= |s| && StartsWith(s[i..], key);
      StartsWithFirst(s[i..], key);
      assert s[i] == s[i..][0];
    }
  }

  lemma StartsWithInside(s: string, i: nat, key: string)
    requires i <= |s| && StartsWith(s[i..], key)
    ensures Contains(s, key)
  {
  }

  /** A substring of a string without `key` is itself without `key`. */
  lemma ContainsSlice(s: string, lo: nat, hi: nat, key: string)
    requires lo <= hi <= |s|
    requires Contains(s[lo..hi], key)
    ensures Contains(s, key)
  {
    var sub := s[lo..hi];
    var i :| 0 <= i <= |sub| && StartsWith(sub[i..], key);
    assert s[lo + i..][..|key|] == sub[i..][..|key|];
    StartsWithInside(s, lo + i, key);
  }

  // ---------------------------------------------------------------- trimming

  function DropSpace(s: string): (t: string)
    ensures t == s[Span(s, IsSpace)..]
    ensures |t| <= |s|
    ensures t == [] || !IsSpace(t[0])
  {
    s[Span(s, IsSpace)..]
  }

  function DropSpaceRight(s: string): (t: string)
    ensures |t| <= |s| && t == s[..|t|]
    ensures t == [] || !IsSpace(t[|t| - 1])
    ensures forall i :: |t| <= i < |s| ==> IsSpace(s[i])
  {
    if s != [] && IsSpace(s[|s| - 1]) then DropSpaceRight(s[..|s| - 1]) else s
  }

  /** The `trim` helper shared by every parser: cut white space off both ends. */
  function Trim(s: string): (t: string)
    ensures |t| <= |s|
    ensures Trimmed(t)
    ensures exists lo: nat, hi: nat :: lo <= hi <= |s| && t == s[lo..hi]
  {
    var left := DropSpace(s);
    var t := DropSpaceRight(left);
    assert t == s[Span(s, IsSpace)..Span(s, IsSpace) + |t|];
    t
  }

  predicate Trimmed(s: string) {
    s != [] ==> !IsSpace(s[0]) && !IsSpace(s[|s| - 1])
  }

  lemma TrimFixed(s: string)
    requires Trimmed(s)
    ensures Trim(s) == s
  {
    if s != [] {
      assert Span(s, IsSpace) == 0;
      assert DropSpace(s) == s;
      assert DropSpaceRight(s) == s;
    }
  }

  lemma TrimContains(s: string, key: string)
    requires Contains(Trim(s), key)
    ensures Contains(s, key)
  {
    var lo: nat, hi: nat :| lo <= hi <= |s| && Trim(s) == s[lo..hi];
    ContainsSlice(s, lo, hi, key);
  }

  lemma {:induction false} DropSpaceRightExact(s: string, b: string)
    requires All(b, IsSpace) && (s == "" || !IsSpace(s[|s| - 1]))
    ensures DropSpaceRight(s + b) == s
    decreases |b|
  {
    if b == "" {
      assert s + b == s;
    } else {
      assert (s + b)[..|s + b| - 1] == s + b[..|b| - 1];
      DropSpaceRightExact(s, b[..|b| - 1]);
    }
  }

  /** Trimming cuts the white space around a text and nothing else. */
  lemma TrimExact(a: string, s: string, b: string)
    requires All(a, IsSpace) && All(b, IsSpace) && Trimmed(s) && s != ""
    ensures Trim(a + s + b) == s
  {
    assert a + s + b == a + (s + b);
    assert (s + b)[0] == s[0];
    SpanIs(a + (s + b), IsSpace, |a|);
    assert DropSpace(a + (s + b)) == s + b;
    DropSpaceRightExact(s, b);
  }

  // ---------------------------------------------------------------- words and lines

  /** What `stream >> word` reads; empty when it fails. */
  function Word(s: string): string { Take(DropSpace(s), NotSpace) }

  function AfterWord(s: string): string { Rest(DropSpace(s), NotSpace) }

  lemma WordSeam(w: string, rest: string)
    requires w != [] && All(w, NotSpace)
    requires rest == [] || IsSpace(rest[0])
    ensures Word(w + rest) == w && AfterWord(w + rest) == rest
    ensures Word([' '] + (w + rest)) == w && AfterWord([' '] + (w + rest)) == rest
  {
    var s := w + rest;
    assert s[0] == w[0];
    SpanIs(s, IsSpace, 0);
    assert DropSpace(s) == s;
    var t := [' '] + s;
    assert t[1] == w[0];
    SpanIs(t, IsSpace, 1);
    assert DropSpace(t) == s;
    TakeSeam(w, rest, NotSpace);
  }

  /** `std::getline`: the text up to the newline, and what follows it. */
  function FirstLine(text: string): string { Take(text, NotNewline) }

  function AfterLine(text: string): (rest: string)
    requires text != []
    ensures |rest| < |text|
  {
    if Span(text, NotNewline) == |text| then [] else text[Span(text, NotNewline) + 1..]
  }

  /** What repeated `std::getline` yields: pieces between newlines, no piece after a final newline. */
  function Lines(text: string): seq<string>
    decreases |text|
  {
    if text == [] then [] else [FirstLine(text)] + Lines(AfterLine(text))
  }

  lemma {:induction false} LinesNewlineFree(text: string)
    ensures forall i :: 0 <= i < |Lines(text)| ==> All(Lines(text)[i], NotNewline)
    decreases |text|
  {
    if text != [] { LinesNewlineFree(AfterLine(text)); }
  }

  /** Text made of newline-terminated lines. */
  function Unlines(lines: seq<string>): string {
    if lines == [] then "" else lines[0] + "\n" + Unlines(lines[1..])
  }

  lemma {:induction false} UnlinesAppend(a: seq<string>, b: seq<string>)
    ensures Unlines(a + b) == Unlines(a) + Unlines(b)
  {
    if a == [] {
      assert a + b == b;
    } else {
      UnlinesAppend(a[1..], b);
      assert (a + b)[1..] == a[1..] + b;
    }
  }

  /** A line and its newline in front of a text. */
  lemma LineBefore(line: string, tail: string)
    requires All(line, NotNewline)
    ensures Lines(line + ("\n" + tail)) == [line] + Lines(tail)
  {
    var text := line + ("\n" + tail);
    SpanSeam(line, "\n" + tail, NotNewline);
    assert text[|line| + 1..] == tail;
  }

  /** Reading back newline-free lines gives the lines that were written. */
  lemma {:induction false} LinesUnlines(lines: seq<string>)
    requires forall i :: 0 <= i < |lines| ==> All(lines[i], NotNewline)
    ensures Lines(Unlines(lines)) == lines
  {
    if lines != [] {
      var tail := Unlines(lines[1..]);
      assert Unlines(lines) == lines[0] + ("\n" + tail);
      LineBefore(lines[0], tail);
      LinesUnlines(lines[1..]);
    }
  }

  /** A last line without its newline is a line like any other. */
  lemma {:induction false} LinesUnterminated(lines: seq<string>, last: string)
    requires forall i :: 0 <= i < |lines| ==> All(lines[i], NotNewline)
    requires last != "" && All(last, NotNewline)
    ensures Lines(Unlines(lines) + last) == lines + [last]
  {
    hide Lines;
    if lines == [] {
      assert Unlines(lines) + last == last;
      OnlyLine(last);
    } else {
      var tail := Unlines(lines[1..]) + last;
      assert Unlines(lines) + last == lines[0] + ("\n" + tail);
      LineBefore(lines[0], tail);
      LinesUnterminated(lines[1..], last);
      assert lines + [last] == [lines[0]] + (lines[1..] + [last]);
    }
  }

  lemma OnlyLine(last: string)
    requires last != "" && All(last, NotNewline)
    ensures Lines(last) == [last]
  {
    TakeAll(last, NotNewline);
    assert Lines(last) == [last] + Lines([]);
  }

  // ---------------------------------------------------------------- ordering

  /** `operator<` of `std::string`. */
  predicate Less(a: string, b: string) {
    b != [] && (a == [] || a[0] < b[0] || (a[0] == b[0] && Less(a[1..], b[1..])))
  }

  lemma {:induction false} LessTrans(a: string, b: string, c: string)
    requires Less(a, b) && Less(b, c)
    ensures Less(a, c)
  {
    if a != [] && a[0] == b[0] && b[0] == c[0] {
      LessTrans(a[1..], b[1..], c[1..]);
    }
  }

  lemma {:induction false} LessIrrefl(a: string)
    ensures !Less(a, a)
  {
    if a != [] { LessIrrefl(a[1..]); }
  }

  lemma {:induction false} LessTotal(a: string, b: string)
    ensures a == b || Less(a, b) || Less(b, a)
  {
    if a != [] && b != [] && a[0] == b[0] {
      LessTotal(a[1..], b[1..]);
      if a[1..] == b[1..] {
        assert a == [a[0]] + a[1..] == b;
      }
    }
  }

  /** The first character in which two strings differ decides. */
  lemma {:induction false} LessAtDifference(p: string, x: char, s: string, y: char, t: string)
    requires x != y
    ensures Less(p + [x] + s, p + [y] + t) <==> x < y
  {
    var a, b := p + [x] + s, p + [y] + t;
    if p != [] {
      assert a[1..] == p[1..] + [x] + s && b[1..] == p[1..] + [y] + t;
      LessAtDifference(p[1..], x, s, y, t);
    }
  }

  /** A string sorts before every proper extension of itself. */
  lemma {:induction false} LessExtension(a: string, suffix: string)
    requires suffix != []
    ensures Less(a, a + suffix)
  {
    if a != [] {
      assert (a + suffix)[1..] == a[1..] + suffix;
      LessExtension(a[1..], suffix);
    }
  }
}
