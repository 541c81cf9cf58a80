/** The Python `str` operations the job-description analyser relies on:
    `isspace`, `lower`, the `in` substring test, `strip`, `splitlines` and
    `split` with no argument. Each is given a definition and the properties
    that pin it down. */
module Text {

  type String = seq<char>

  /** Python's `str.isspace` for one character. */
  predicate IsSpace(c: char)
  {
    var n := c as int;
    n == 0x20 || 0x09 <= n <= 0x0D || 0x1C <= n <= 0x1F || n == 0x85 || n == 0xA0
    || n == 0x1680 || 0x2000 <= n <= 0x200A || n == 0x2028 || n == 0x2029
    || n == 0x202F || n == 0x205F || n == 0x3000
  }

  /** The characters at which Python's `str.splitlines` ends a line. */
  predicate IsLineBreak(c: char)
  {
    var n := c as int;
    0x0A <= n <= 0x0D || 0x1C <= n <= 0x1E || n == 0x85 || n == 0x2028 || n == 0x2029
  }

  predicate NoSpace(s: String)
  {
    forall i :: 0 <= i < |s| ==> !IsSpace(s[i])
  }

  predicate AllSpace(s: String)
  {
    forall i :: 0 <= i < |s| ==> IsSpace(s[i])
  }

  predicate NoLineBreak(s: String)
  {
    forall i :: 0 <= i < |s| ==> !IsLineBreak(s[i])
  }

  // ---------------------------------------------------------------------
  // lower()

  /** Lower-cases one character; only ASCII letters change. */
  function LowerChar(c: char): char
  {
    if 'A' <= c <= 'Z' then (c as int + 32) as char else c
  }

  /** `s.lower()`, character by character. */
  function ToLower(s: String): String
  {
    seq(|s|, i requires 0 <= i < |s| => LowerChar(s[i]))
  }

  predicate IsLower(s: String)
  {
    forall i :: 0 <= i < |s| ==> !('A' <= s[i] <= 'Z')
  }

  /** Lower-casing keeps the length, leaves every character other than an
      upper-case ASCII letter as it is, turns an upper-case letter into the
      lower-case letter at the same place in the alphabet, leaves no
      upper-case letter, changes no character's whitespace status, and doing
      it twice is doing it once. */
  lemma ToLowerProperties(s: String)
    ensures |ToLower(s)| == |s|
    ensures forall i :: 0 <= i < |s| && !('A' <= s[i] <= 'Z') ==> ToLower(s)[i] == s[i]
    ensures forall i :: 0 <= i < |s| && 'A' <= s[i] <= 'Z' ==>
              'a' <= ToLower(s)[i] <= 'z' && ToLower(s)[i] as int - 'a' as int == s[i] as int - 'A' as int
    ensures IsLower(ToLower(s))
    ensures ToLower(ToLower(s)) == ToLower(s)
    ensures NoSpace(s) ==> NoSpace(ToLower(s))
  {
  }

  // ---------------------------------------------------------------------
  // sub in s

  /** `sub` occurs in `s` starting at index `i`. */
  ghost predicate OccursAt(s: String, sub: String, i: int)
  {
    0 <= i && i + |sub| <= |s| && s[i..i + |sub|] == sub
  }

  /** Python's `sub in s`: true exactly when `sub` occurs somewhere in `s`. */
  function Contains(s: String, sub: String): (b: bool)
    ensures b <==> exists i :: OccursAt(s, sub, i)
    decreases |s|
  {
    if sub <= s then
      assert OccursAt(s, sub, 0);
      true
    else if s == [] then
      false
    else
      var b := Contains(s[1..], sub);
      assert forall i :: OccursAt(s[1..], sub, i) ==> OccursAt(s, sub, i + 1) by {
        forall i | OccursAt(s[1..], sub, i) ensures OccursAt(s, sub, i + 1) {
          assert s[i + 1..i + 1 + |sub|] == s[1..][i..i + |sub|];
        }
      }
      assert forall i :: OccursAt(s, sub, i) ==> OccursAt(s[1..], sub, i - 1) by {
        forall i | OccursAt(s, sub, i) ensures OccursAt(s[1..], sub, i - 1) {
          assert i != 0;
          assert s[1..][i - 1..i - 1 + |sub|] == s[i..i + |sub|];
        }
      }
      b
  }

  /** A slice `w` of `s` that lower-cases to `word` puts `word` in the
      lower-cased `s` at the same place. */
  lemma LoweredOccursAt(s: String, w: String, word: String, i: nat)
    requires i + |w| <= |s| && s[i..i + |w|] == w && ToLower(w) == word
    ensures OccursAt(ToLower(s), word, i)
  {
    var lower := ToLower(s);
    forall j | 0 <= j < |word| ensures lower[i + j] == word[j] {
      assert s[i + j] == w[j];
    }
    assert lower[i..i + |word|] == word;
  }

  /** A string holding a character that `s` lacks does not occur in `s`. */
  lemma MissingCharNotContained(s: String, sub: String, k: nat)
    requires k < |sub| && sub[k] !in s
    ensures !Contains(s, sub)
  {
  }

  // ---------------------------------------------------------------------
  // strip()

  /** `s.lstrip()`: drops the leading whitespace. */
  function TrimStart(s: String): (r: String)
    ensures |r| <= |s| && r == s[|s| - |r|..]
    ensures AllSpace(s[..|s| - |r|])
    ensures r == [] || !IsSpace(r[0])
  {
    if s != [] && IsSpace(s[0]) then
      var tail := s[1..];
      var r := TrimStart(tail);
      var k := |s| - |r|;
      assert tail[k - 1..] == s[k..];
      assert s[..k] == [s[0]] + tail[..k - 1];
      AllSpaceCons(s[0], tail[..k - 1]);
      r
    else
      assert s[..0] == [];
      s
  }

  lemma AllSpaceCons(c: char, t: String)
    requires IsSpace(c) && AllSpace(t)
    ensures AllSpace([c] + t)
  {
    forall m | 0 <= m < |[c] + t| ensures IsSpace(([c] + t)[m]) {
      if m > 0 {
        assert ([c] + t)[m] == t[m - 1];
      }
    }
  }

  /** `s.rstrip()`: drops the trailing whitespace. */
  function TrimEnd(s: String): (r: String)
    ensures |r| <= |s| && r == s[..|r|]
    ensures AllSpace(s[|r|..])
    ensures r == [] || !IsSpace(r[|r| - 1])
  {
    if s != [] && IsSpace(s[|s| - 1]) then
      var front := s[..|s| - 1];
      var r := TrimEnd(front);
      assert front[..|r|] == s[..|r|];
      assert s[|r|..] == front[|r|..] + [s[|s| - 1]];
      r
    else
      assert s[|s|..] == [];
      s
  }

  /** `s` is `i` whitespace characters, then `r`, then whitespace. */
  ghost predicate PaddedAt(s: String, r: String, i: int)
  {
    0 <= i <= |s| - |r| && r == s[i..i + |r|] && AllSpace(s[..i]) && AllSpace(s[i + |r|..])
  }

  /** Python's `s.strip()`: `s` is whitespace, then the result, then
      whitespace, and the result neither starts nor ends with whitespace. */
  function Strip(s: String): (r: String)
    ensures exists i :: PaddedAt(s, r, i)
    ensures r == [] || (!IsSpace(r[0]) && !IsSpace(r[|r| - 1]))
  {
    var t := TrimStart(s);
    var r := TrimEnd(t);
    StripParts(s, t, r);
    assert PaddedAt(s, r, |s| - |t|);
    r
  }

  lemma StripParts(s: String, t: String, r: String)
    requires |t| <= |s| && t == s[|s| - |t|..] && AllSpace(s[..|s| - |t|])
    requires t == [] || !IsSpace(t[0])
    requires |r| <= |t| && r == t[..|r|] && AllSpace(t[|r|..])
    requires r == [] || !IsSpace(r[|r| - 1])
    ensures PaddedAt(s, r, |s| - |t|)
    ensures r == [] || (!IsSpace(r[0]) && !IsSpace(r[|r| - 1]))
  {
    var i := |s| - |t|;
    assert r == s[i..i + |r|];
    assert s[i + |r|..] == t[|r|..];
    if r != [] {
      assert r[0] == t[0];
    }
  }

  /** The characterisation above fixes the result: whatever whitespace
      surrounds a string that does not itself start or end with whitespace,
      stripping gives back that string. */
  lemma {:induction false} StripPadded(a: String, m: String, b: String)
    requires AllSpace(a) && AllSpace(b)
    requires m == [] || (!IsSpace(m[0]) && !IsSpace(m[|m| - 1]))
    ensures Strip(a + m + b) == m
  {
    if m == [] {
      assert a + m + b == (a + b) + [];
      TrimStartPadded(a + b, []);
    } else {
      assert a + m + b == a + (m + b);
      TrimStartPadded(a, m + b);
      TrimEndPadded(m, b);
    }
  }

  lemma {:induction false} TrimStartPadded(a: String, t: String)
    requires AllSpace(a)
    requires t == [] || !IsSpace(t[0])
    ensures TrimStart(a + t) == t
    decreases |a|
  {
    if a != [] {
      assert (a + t)[1..] == a[1..] + t;
      TrimStartPadded(a[1..], t);
    }
  }

  lemma {:induction false} TrimEndPadded(m: String, b: String)
    requires AllSpace(b)
    requires m == [] || !IsSpace(m[|m| - 1])
    ensures TrimEnd(m + b) == m
    decreases |b|
  {
    if b != [] {
      assert (m + b)[..|m + b| - 1] == m + b[..|b| - 1];
      TrimEndPadded(m, b[..|b| - 1]);
    } else {
      assert m + b == m;
    }
  }

  /** Stripping twice is stripping once. */
  lemma StripIdempotent(s: String)
    ensures Strip(Strip(s)) == Strip(s)
  {
  }

  // ---------------------------------------------------------------------
  // splitlines()

  /** Length of the first line of `s`: the index of its first line break,
      or |s| when there is none. */
  function LineLength(s: String): (n: nat)
    ensures n <= |s| && NoLineBreak(s[..n])
    ensures n < |s| ==> IsLineBreak(s[n])
  {
    if s == [] || IsLineBreak(s[0]) then 0 else 1 + LineLength(s[1..])
  }

  /** Where the text after the line break at index `n` begins: a "\r\n" pair
      counts as one line break. */
  function NextLineStart(s: String, n: nat): (k: nat)
    requires n < |s|
    ensures n < k <= |s|
  {
    if s[n] == '\r' && n + 1 < |s| && s[n + 1] == '\n' then n + 2 else n + 1
  }

  /** Python's `s.splitlines()`: the lines of `s` without their line breaks;
      a line break at the very end does not start another, empty, line. */
  function SplitLines(s: String): (lines: seq<String>)
    ensures forall l :: l in lines ==> NoLineBreak(l)
    ensures s != [] <==> lines != []
    decreases |s|
  {
    if s == [] then []
    else
      var n := LineLength(s);
      if n == |s| then [s]
      else [s[..n]] + SplitLines(s[NextLineStart(s, n)..])
  }

  /** Each line followed by "\n". */
  function JoinLines(lines: seq<String>): String
  {
    if lines == [] then [] else lines[0] + "\n" + JoinLines(lines[1..])
  }

  lemma {:induction false} LineLengthOfLine(l: String, rest: String)
    requires NoLineBreak(l) && rest != [] && IsLineBreak(rest[0])
    ensures LineLength(l + rest) == |l|
    decreases |l|
  {
    var s := l + rest;
    if l == [] {
      assert s == rest;
    } else {
      assert s[0] == l[0] && !IsLineBreak(l[0]);
      assert s[1..] == l[1..] + rest;
      assert NoLineBreak(l[1..]) by {
        forall i | 0 <= i < |l[1..]| ensures !IsLineBreak(l[1..][i]) {
          assert l[1..][i] == l[i + 1];
        }
      }
      LineLengthOfLine(l[1..], rest);
    }
  }

  /** A line followed by a line break other than "\r" is the first line of
      the text; so is a line followed by a "\r" that does not start "\r\n". */
  lemma SplitLinesAfterLine(l: String, c: char, rest: String)
    requires NoLineBreak(l) && IsLineBreak(c)
    requires c == '\r' ==> rest == [] || rest[0] != '\n'
    ensures SplitLines(l + [c] + rest) == [l] + SplitLines(rest)
  {
    var s := l + [c] + rest;
    assert s == l + ([c] + rest);
    LineLengthOfLine(l, [c] + rest);
    assert s[|l|] == c;
    assert NextLineStart(s, |l|) == |l| + 1;
    assert s[..|l|] == l;
    assert s[|l| + 1..] == rest;
  }

  /** A "\r\n" pair after a line is one line break, not two. */
  lemma SplitLinesAfterCrLf(l: String, rest: String)
    requires NoLineBreak(l)
    ensures SplitLines(l + "\r\n" + rest) == [l] + SplitLines(rest)
  {
    var s := l + "\r\n" + rest;
    assert s == l + ("\r\n" + rest);
    LineLengthOfLine(l, "\r\n" + rest);
    assert s[|l|] == '\r' && s[|l| + 1] == '\n';
    assert NextLineStart(s, |l|) == |l| + 2;
    assert s[..|l|] == l;
    assert s[|l| + 2..] == rest;
  }

  /** A non-empty text without line breaks is one line. With
      SplitLinesAfterLine, SplitLinesAfterCrLf and the empty text having no
      lines, this fixes SplitLines on every string: cut after the first
      line break, or the first "\r\n", and split the rest. */
  lemma SplitLinesOneLine(l: String)
    requires l != [] && NoLineBreak(l)
    ensures SplitLines(l) == [l]
  {
  }

  /** Splitting newline-terminated lines gives the lines back. */
  lemma {:induction false} SplitLinesOfJoin(lines: seq<String>)
    requires forall l :: l in lines ==> NoLineBreak(l)
    ensures SplitLines(JoinLines(lines)) == lines
    decreases |lines|
  {
    if lines != [] {
      assert lines[0] in lines;
      assert JoinLines(lines) == lines[0] + ['\n'] + JoinLines(lines[1..]);
      SplitLinesAfterLine(lines[0], '\n', JoinLines(lines[1..]));
      SplitLinesOfJoin(lines[1..]);
      assert lines == [lines[0]] + lines[1..];
    }
  }

  /** Every line break in `s` is a "\n". */
  predicate OnlyNewlines(s: String)
  {
    forall i :: 0 <= i < |s| && IsLineBreak(s[i]) ==> s[i] == '\n'
  }

  /** `s` with a final "\n" added when it does not already end in one. */
  function NewlineTerminated(s: String): String
  {
    if s == [] || s[|s| - 1] == '\n' then s else s + "\n"
  }

  /** Joining the lines of a text whose only line break is "\n" gives the
      text back, with a final "\n" added when it did not end in one. */
  lemma {:induction false} JoinOfSplitLines(s: String)
    requires OnlyNewlines(s)
    ensures JoinLines(SplitLines(s)) == NewlineTerminated(s)
    decreases |s|
  {
    if s != [] {
      var n := LineLength(s);
      if n == |s| {
        assert s[..n] == s;
        assert !IsLineBreak(s[|s| - 1]);
        assert JoinLines([s]) == s + "\n" + [];
      } else {
        var rest := s[n + 1..];
        assert s[n] == '\n';
        assert OnlyNewlines(rest) by {
          forall i | 0 <= i < |rest| && IsLineBreak(rest[i]) ensures rest[i] == '\n' {
            assert rest[i] == s[n + 1 + i];
          }
        }
        JoinOfSplitLines(rest);
        JoinOfSplitLinesStep(s, n, rest);
      }
    }
  }

  lemma JoinOfSplitLinesStep(s: String, n: nat, rest: String)
    requires n < |s| && s[n] == '\n' && rest == s[n + 1..]
    requires n == LineLength(s)
    requires JoinLines(SplitLines(rest)) == NewlineTerminated(rest)
    ensures JoinLines(SplitLines(s)) == NewlineTerminated(s)
  {
    var head := s[..n];
    SplitLinesAtNewline(s, n);
    JoinLinesCons(head, SplitLines(rest));
    SplitAround(s, n);
    NewlineTerminatedAfterLine(head, rest);
  }

  lemma SplitLinesAtNewline(s: String, n: nat)
    requires n < |s| && s[n] == '\n' && n == LineLength(s)
    ensures SplitLines(s) == [s[..n]] + SplitLines(s[n + 1..])
  {
    assert NextLineStart(s, n) == n + 1;
  }

  lemma SplitAround(s: String, n: nat)
    requires n < |s| && s[n] == '\n'
    ensures s == s[..n] + "\n" + s[n + 1..]
  {
  }

  lemma JoinLinesCons(l: String, lines: seq<String>)
    ensures JoinLines([l] + lines) == l + "\n" + JoinLines(lines)
  {
    assert ([l] + lines)[0] == l && ([l] + lines)[1..] == lines;
  }

  lemma NewlineTerminatedAfterLine(head: String, rest: String)
    ensures NewlineTerminated(head + "\n" + rest) == head + "\n" + NewlineTerminated(rest)
  {
  }

  // ---------------------------------------------------------------------
  // split()

  /** Length of the first word of `s`: the index of its first whitespace
      character, or |s| when there is none. */
  function WordLength(s: String): (n: nat)
    ensures n <= |s| && NoSpace(s[..n])
    ensures n < |s| ==> IsSpace(s[n])
  {
    if s == [] || IsSpace(s[0]) then 0 else 1 + WordLength(s[1..])
  }

  /** Python's `s.split()`: the maximal runs of non-whitespace characters,
      in order; there are no empty words. */
  function SplitWs(s: String): (words: seq<String>)
    ensures forall w :: w in words ==> w != [] && NoSpace(w)
    decreases |s|
  {
    if s == [] then []
    else if IsSpace(s[0]) then SplitWs(s[1..])
    else
      var n := WordLength(s);
      [s[..n]] + SplitWs(s[n..])
  }

  /** `" ".join(words)`. */
  function JoinWords(words: seq<String>): String
  {
    if words == [] then []
    else if |words| == 1 then words[0]
    else words[0] + " " + JoinWords(words[1..])
  }

  /** A whitespace character between two texts separates their words. */
  lemma {:induction false} SplitWsAppend(a: String, c: char, b: String)
    requires IsSpace(c)
    ensures SplitWs(a + [c] + b) == SplitWs(a) + SplitWs(b)
    decreases |a|
  {
    var s := a + [c] + b;
    if a == [] {
      assert s[1..] == b;
    } else if IsSpace(a[0]) {
      assert s[1..] == a[1..] + [c] + b;
      SplitWsAppend(a[1..], c, b);
    } else {
      var n := WordLength(a);
      WordLengthAppend(a, c, b);
      assert s[..n] == a[..n];
      assert s[n..] == a[n..] + [c] + b;
      SplitWsAppend(a[n..], c, b);
    }
  }

  lemma {:induction false} WordLengthAppend(a: String, c: char, b: String)
    requires IsSpace(c)
    ensures WordLength(a + [c] + b) == WordLength(a)
    decreases |a|
  {
    if a != [] && !IsSpace(a[0]) {
      assert (a + [c] + b)[1..] == a[1..] + [c] + b;
      WordLengthAppend(a[1..], c, b);
    }
  }

  /** Text without whitespace is one word, or no word when it is empty.
      With SplitWsAppend this fixes SplitWs on every string: cut at any
      whitespace character, and split the whitespace-free pieces here. */
  lemma SplitWsWord(w: String)
    requires NoSpace(w)
    ensures SplitWs(w) == if w == [] then [] else [w]
  {
    if w != [] {
      var n := WordLength(w);
      assert n == |w|;
      assert w[..n] == w;
    }
  }

  /** Splitting words joined by single spaces gives the words back. */
  lemma {:induction false} SplitWsOfJoin(words: seq<String>)
    requires forall w :: w in words ==> w != [] && NoSpace(w)
    ensures SplitWs(JoinWords(words)) == words
    decreases |words|
  {
    if |words| == 1 {
      assert words[0] in words;
      SplitWsWord(words[0]);
    } else if |words| > 1 {
      var w, tail := words[0], words[1..];
      assert w in words;
      assert forall v :: v in tail ==> v in words;
      SplitWsOfJoin(tail);
      JoinWordsCons(words);
      SplitWsAppend(w, ' ', JoinWords(tail));
      SplitWsWord(w);
      assert words == [w] + tail;
    }
  }

  lemma JoinWordsCons(words: seq<String>)
    requires |words| > 1
    ensures JoinWords(words) == words[0] + [' '] + JoinWords(words[1..])
  {
  }
}
