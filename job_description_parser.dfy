/** The job-description analyser: `parse_job_description` sorts the lines of
    a job description into requirement lines and responsibility lines, and
    `extract_keywords` collects the lower-cased words longer than three
    characters. Each loop is a method proved against a specification
    function; the lemmas state what those functions promise. */
module JobDescriptionParser {
  import opened Text

  /** The dictionary `parse_job_description` returns; its two keys,
      "requirements" and "responsibilities", are the two fields. */
  datatype ParsedJob = ParsedJob(requirements: seq<String>, responsibilities: seq<String>)

  /** Which list, if any, a line goes to. */
  datatype LineKind = Requirement | Responsibility | Other

  const RequirementWord: String := "requirement"
  const ResponsibilityWord: String := "responsibility"

  /** A keyword is longer than this many characters. */
  const MinKeywordLength: nat := 3

  // ---------------------------------------------------------------------
  // parse_job_description

  /** The `if` / `elif` on the lower-cased line: the requirement test is
      made first and wins. */
  function Classify(line: String): LineKind
  {
    var lower := ToLower(line);
    if Contains(lower, RequirementWord) then Requirement
    else if Contains(lower, ResponsibilityWord) then Responsibility
    else Other
  }

  /** The stripped lines of kind `kind`, in input order: the list the loop
      has built for `kind` once it has seen `lines`. */
  function Collected(lines: seq<String>, kind: LineKind): seq<String>
  {
    if lines == [] then []
    else
      var last := lines[|lines| - 1];
      Collected(lines[..|lines| - 1], kind) + (if Classify(last) == kind then [Strip(last)] else [])
  }

  /** What `parse_job_description(text)` returns. */
  function Parse(text: String): ParsedJob
  {
    var lines := SplitLines(text);
    ParsedJob(Collected(lines, Requirement), Collected(lines, Responsibility))
  }

  /** The loop of `parse_job_description`: one pass over the lines,
      appending each stripped line to the list its test selects. */
  method ParseJobDescription(text: String) returns (parsed: ParsedJob)
    ensures parsed == Parse(text)
  {
    var lines := SplitLines(text);
    var requirements: seq<String> := [];
    var responsibilities: seq<String> := [];
    for i := 0 to |lines|
      invariant requirements == Collected(lines[..i], Requirement)
      invariant responsibilities == Collected(lines[..i], Responsibility)
    {
      var line := lines[i];
      assert lines[..i + 1][..i] == lines[..i];
      if Contains(ToLower(line), RequirementWord) {
        requirements := requirements + [Strip(line)];
      } else if Contains(ToLower(line), ResponsibilityWord) {
        responsibilities := responsibilities + [Strip(line)];
      }
    }
    assert lines[..|lines|] == lines;
    parsed := ParsedJob(requirements, responsibilities);
  }

  /** The indices of the lines of kind `kind`, in increasing order. */
  function MatchIndices(lines: seq<String>, kind: LineKind): (idx: seq<nat>)
    ensures forall j :: 0 <= j < |idx| ==> idx[j] < |lines| && Classify(lines[idx[j]]) == kind
    ensures forall j1, j2 :: 0 <= j1 < j2 < |idx| ==> idx[j1] < idx[j2]
    ensures forall i :: 0 <= i < |lines| && Classify(lines[i]) == kind ==> i in idx
  {
    if lines == [] then []
    else
      var n := |lines| - 1;
      var prefix := lines[..n];
      var earlier := MatchIndices(prefix, kind);
      assert forall i :: 0 <= i < n ==> lines[i] == prefix[i];
      earlier + (if Classify(lines[n]) == kind then [n] else [])
  }

  /** Each list is the input lines of its kind, stripped, in input order:
      entry j comes from line MatchIndices(lines, kind)[j]. */
  lemma {:induction false} CollectedIsOrderedFilter(lines: seq<String>, kind: LineKind)
    ensures |Collected(lines, kind)| == |MatchIndices(lines, kind)|
    ensures forall j :: 0 <= j < |Collected(lines, kind)| ==>
              Collected(lines, kind)[j] == Strip(lines[MatchIndices(lines, kind)[j]])
  {
    if lines != [] {
      var n := |lines| - 1;
      var prefix := lines[..n];
      CollectedIsOrderedFilter(prefix, kind);
      var idx := MatchIndices(lines, kind);
      forall j | 0 <= j < |Collected(prefix, kind)|
        ensures Collected(lines, kind)[j] == Strip(lines[idx[j]])
      {
        assert idx[j] == MatchIndices(prefix, kind)[j];
        assert lines[idx[j]] == prefix[idx[j]];
      }
    }
  }

  /** A string is in the list for `kind` exactly when it is the stripped
      form of some input line of that kind. */
  lemma {:induction false} CollectedMembership(lines: seq<String>, kind: LineKind, x: String)
    ensures x in Collected(lines, kind) <==>
            exists i :: 0 <= i < |lines| && Classify(lines[i]) == kind && x == Strip(lines[i])
  {
    CollectedIsOrderedFilter(lines, kind);
    var out, idx := Collected(lines, kind), MatchIndices(lines, kind);
    if x in out {
      var j :| 0 <= j < |out| && out[j] == x;
      assert Classify(lines[idx[j]]) == kind && x == Strip(lines[idx[j]]);
    }
    if i :| 0 <= i < |lines| && Classify(lines[i]) == kind && x == Strip(lines[i]) {
      var j :| 0 <= j < |idx| && idx[j] == i;
      assert out[j] == x;
    }
  }

  /** Appending lines appends to each list: the lists keep input order. */
  lemma {:induction false} CollectedAppend(a: seq<String>, b: seq<String>, kind: LineKind)
    ensures Collected(a + b, kind) == Collected(a, kind) + Collected(b, kind)
    decreases |b|
  {
    if b == [] {
      assert a + b == a;
    } else {
      var n := |b| - 1;
      assert (a + b)[..|a + b| - 1] == a + b[..n];
      CollectedAppend(a, b[..n], kind);
    }
  }

  /** Every line lands in exactly one of the three kinds, so the two lists
      together are as long as the number of lines that pass either test. */
  lemma {:induction false} CollectedPartition(lines: seq<String>)
    ensures |Collected(lines, Requirement)| + |Collected(lines, Responsibility)|
            + |Collected(lines, Other)| == |lines|
  {
    if lines != [] {
      CollectedPartition(lines[..|lines| - 1]);
    }
  }

  /** The same membership, stated over the lines themselves rather than
      their positions. */
  lemma CollectedContains(lines: seq<String>, kind: LineKind, x: String)
    ensures x in Collected(lines, kind) <==>
            exists l :: l in lines && Classify(l) == kind && x == Strip(l)
  {
    CollectedMembership(lines, kind, x);
    if x in Collected(lines, kind) {
      var i :| 0 <= i < |lines| && Classify(lines[i]) == kind && x == Strip(lines[i]);
      assert lines[i] in lines;
    }
    if l :| l in lines && Classify(l) == kind && x == Strip(l) {
      var i :| 0 <= i < |lines| && lines[i] == l;
    }
  }

  /** The requirement list holds exactly the stripped lines whose
      lower-cased form contains "requirement". */
  lemma ParseRequirements(text: String, x: String)
    ensures x in Parse(text).requirements <==>
            exists l :: l in SplitLines(text) && Contains(ToLower(l), RequirementWord) && x == Strip(l)
  {
    var lines := SplitLines(text);
    CollectedContains(lines, Requirement, x);
    forall l | l in lines
      ensures Classify(l) == Requirement <==> Contains(ToLower(l), RequirementWord)
    {
    }
  }

  /** The responsibility list holds exactly the stripped lines whose
      lower-cased form contains "responsibility" but not "requirement". */
  lemma ParseResponsibilities(text: String, x: String)
    ensures x in Parse(text).responsibilities <==>
            exists l :: l in SplitLines(text) && !Contains(ToLower(l), RequirementWord)
                        && Contains(ToLower(l), ResponsibilityWord) && x == Strip(l)
  {
    var lines := SplitLines(text);
    CollectedContains(lines, Responsibility, x);
    forall l | l in lines
      ensures Classify(l) == Responsibility <==>
              !Contains(ToLower(l), RequirementWord) && Contains(ToLower(l), ResponsibilityWord)
    {
    }
  }

  /** Line by line: line i feeds the requirement list exactly when it
      contains "requirement", and feeds the responsibility list exactly when
      it contains "responsibility" and not "requirement"; a line with both
      words goes to the requirement list only. */
  lemma LineRouting(text: String, i: nat)
    requires i < |SplitLines(text)|
    ensures var lower := ToLower(SplitLines(text)[i]);
            && (i in MatchIndices(SplitLines(text), Requirement) <==> Contains(lower, RequirementWord))
            && (i in MatchIndices(SplitLines(text), Responsibility) <==>
                  !Contains(lower, RequirementWord) && Contains(lower, ResponsibilityWord))
  {
  }

  /** The two lists together are as long as the number of lines that pass
      either test; a line that passes neither adds nothing. */
  lemma ParseLength(text: String)
    ensures |Parse(text).requirements| + |Parse(text).responsibilities|
            == |MatchIndices(SplitLines(text), Requirement)| + |MatchIndices(SplitLines(text), Responsibility)|
    ensures |Parse(text).requirements| + |Parse(text).responsibilities|
            == |SplitLines(text)| - |MatchIndices(SplitLines(text), Other)|
  {
    var lines := SplitLines(text);
    CollectedIsOrderedFilter(lines, Requirement);
    CollectedIsOrderedFilter(lines, Responsibility);
    CollectedPartition(lines);
    CollectedIsOrderedFilter(lines, Other);
  }

  /** A text none of whose lines contains either word, the empty text
      among them, gives two empty lists. */
  lemma ParseNoMatch(text: String)
    requires forall l :: l in SplitLines(text) ==> Classify(l) == Other
    ensures Parse(text) == ParsedJob([], [])
  {
    var lines := SplitLines(text);
    forall kind | kind != Other ensures Collected(lines, kind) == [] {
      if Collected(lines, kind) != [] {
        CollectedMembership(lines, kind, Collected(lines, kind)[0]);
      }
    }
  }

  /** The empty job description gives two empty lists. */
  lemma ParseEmpty()
    ensures Parse("") == ParsedJob([], [])
  {
  }

  /** The test is a plain substring test: a "Requirements" heading, in any
      capitalisation, contains "requirement" and is a requirement line, but
      a "Responsibilities" heading does not contain "responsibility" (its
      lower-cased form has no "y") and matches neither test. */
  lemma PluralHeadings(line: String)
    ensures ToLower(line) == "requirements" ==> Classify(line) == Requirement
    ensures ToLower(line) == "responsibilities" ==> Classify(line) == Other
  {
    var lower := ToLower(line);
    if lower == "requirements" {
      RequirementsHeadingMatches(lower);
    } else if lower == "responsibilities" {
      ResponsibilitiesHeadingMisses(lower);
    }
  }

  lemma RequirementsHeadingMatches(heading: String)
    requires heading == "requirements"
    ensures Contains(heading, RequirementWord)
  {
    assert OccursAt(heading, RequirementWord, 0);
  }

  lemma ResponsibilitiesHeadingMisses(heading: String)
    requires heading == "responsibilities"
    ensures !Contains(heading, ResponsibilityWord) && !Contains(heading, RequirementWord)
  {
    assert ResponsibilityWord[13] == 'y' && 'y' !in heading;
    MissingCharNotContained(heading, ResponsibilityWord, 13);
    assert RequirementWord[2] == 'q' && 'q' !in heading;
    MissingCharNotContained(heading, RequirementWord, 2);
  }

  // ---------------------------------------------------------------------
  // A worked example: three lines, one of each kind

  /** "Must have 5 years requirement: Python", "Responsibility: lead team"
      and "Other line", one per line, give one requirement and one
      responsibility; the third line is dropped. */
  lemma WorkedExample(l1: String, l2: String, l3: String)
    requires l1 == "Must have 5 years requirement: Python"
    requires l2 == "Responsibility: lead team"
    requires l3 == "Other line"
    ensures Parse(l1 + "\n" + l2 + "\n" + l3) == ParsedJob([l1], [l2])
  {
    ExampleRequirementLine(l1);
    ExampleResponsibilityLine(l2);
    ExampleOtherLine(l3);
    ParseOfThree(l1, l2, l3);
  }

  /** Three lines, one of each kind, that strip to themselves. */
  lemma ParseOfThree(l1: String, l2: String, l3: String)
    requires NoLineBreak(l1) && NoLineBreak(l2) && NoLineBreak(l3) && l3 != []
    requires Classify(l1) == Requirement && Strip(l1) == l1
    requires Classify(l2) == Responsibility && Strip(l2) == l2
    requires Classify(l3) == Other
    ensures Parse(l1 + "\n" + l2 + "\n" + l3) == ParsedJob([l1], [l2])
  {
    ThreeLines(l1, l2, l3);
    OnlyFirstOfThree(l1, l2, l3, Requirement);
    OnlySecondOfThree(l1, l2, l3, Responsibility);
  }

  /** Of three lines, only the first is of kind `kind`. */
  lemma OnlyFirstOfThree(l1: String, l2: String, l3: String, kind: LineKind)
    requires Classify(l1) == kind && Strip(l1) == l1
    requires Classify(l2) != kind && Classify(l3) != kind
    ensures Collected([l1] + [l2] + [l3], kind) == [l1]
  {
    CollectedOfThree(l1, l2, l3, kind);
    CollectedOne(l1);
    CollectedOne(l2);
    CollectedOne(l3);
    assert [l1] + [] + [] == [l1];
  }

  /** Of three lines, only the second is of kind `kind`. */
  lemma OnlySecondOfThree(l1: String, l2: String, l3: String, kind: LineKind)
    requires Classify(l2) == kind && Strip(l2) == l2
    requires Classify(l1) != kind && Classify(l3) != kind
    ensures Collected([l1] + [l2] + [l3], kind) == [l2]
  {
    CollectedOfThree(l1, l2, l3, kind);
    CollectedOne(l1);
    CollectedOne(l2);
    CollectedOne(l3);
    assert [] + [l2] + [] == [l2];
  }

  /** Three break-free lines joined by newlines split back into them. */
  lemma ThreeLines(l1: String, l2: String, l3: String)
    requires NoLineBreak(l1) && NoLineBreak(l2) && NoLineBreak(l3) && l3 != []
    ensures SplitLines(l1 + "\n" + l2 + "\n" + l3) == [l1] + [l2] + [l3]
  {
    var tail := l2 + "\n" + l3;
    assert l1 + "\n" + l2 + "\n" + l3 == l1 + ['\n'] + tail;
    assert tail == l2 + ['\n'] + l3;
    SplitLinesAfterLine(l1, '\n', tail);
    SplitLinesAfterLine(l2, '\n', l3);
    SplitLinesOneLine(l3);
  }

  /** The lists of three lines are built one line at a time. */
  lemma CollectedOfThree(l1: String, l2: String, l3: String, kind: LineKind)
    ensures Collected([l1] + [l2] + [l3], kind)
            == Collected([l1], kind) + Collected([l2], kind) + Collected([l3], kind)
  {
    CollectedAppend([l1], [l2], kind);
    CollectedAppend([l1] + [l2], [l3], kind);
  }

  /** A single line feeds exactly the list of its own kind. */
  lemma CollectedOne(l: String)
    ensures forall kind :: Collected([l], kind) == if Classify(l) == kind then [Strip(l)] else []
  {
    forall kind ensures Collected([l], kind) == if Classify(l) == kind then [Strip(l)] else [] {
      assert [l][..0] == [];
    }
  }

  /** The first example line: a requirement, already stripped. */
  lemma ExampleRequirementLine(line: String)
    requires line == "Must have 5 years requirement: Python"
    ensures NoLineBreak(line) && Classify(line) == Requirement && Strip(line) == line
  {
    assert NoLineBreak(line) by { PrintableLine(line); }
    assert Classify(line) == Requirement by { RequirementAt18(line); }
    assert Strip(line) == line by { UnpaddedLine(line); }
  }

  /** "requirement" starts at index 18 of the first example line. */
  lemma RequirementAt18(line: String)
    requires line == "Must have 5 years requirement: Python"
    ensures Classify(line) == Requirement
  {
    var w := RequirementWord;
    assert line[18..29] == w;
    forall j | 0 <= j < |w| ensures ToLower(w)[j] == w[j] {
      assert 'a' <= w[j] <= 'z';
    }
    LoweredOccursAt(line, w, w, 18);
  }

  /** The second example line: a responsibility, already stripped. */
  lemma ExampleResponsibilityLine(line: String)
    requires line == "Responsibility: lead team"
    ensures NoLineBreak(line) && Classify(line) == Responsibility && Strip(line) == line
  {
    assert NoLineBreak(line) by { PrintableLine(line); }
    assert !Contains(ToLower(line), RequirementWord) by { LacksRequirement(line); }
    assert Contains(ToLower(line), ResponsibilityWord) by { ResponsibilityAt0(line); }
    assert Strip(line) == line by { UnpaddedLine(line); }
  }

  /** The second example line starts with "Responsibility". */
  lemma ResponsibilityAt0(line: String)
    requires line == "Responsibility: lead team"
    ensures Contains(ToLower(line), ResponsibilityWord)
  {
    var w: String := "Responsibility";
    assert line[..14] == w;
    forall j | 0 <= j < |w| ensures ToLower(w)[j] == ResponsibilityWord[j] {
      assert 'a' <= ResponsibilityWord[j] <= 'z';
    }
    LoweredOccursAt(line, w, ResponsibilityWord, 0);
  }

  /** The third example line matches neither test. */
  lemma ExampleOtherLine(line: String)
    requires line == "Other line"
    ensures line != [] && NoLineBreak(line) && Classify(line) == Other
  {
    assert NoLineBreak(line) by { PrintableLine(line); }
    assert !Contains(ToLower(line), RequirementWord) by { LacksRequirement(line); }
    forall i | 0 <= i < |line| ensures line[i] != 'y' && line[i] != 'Y' {
      assert ' ' <= line[i] <= 't';
    }
    var lower := ToLower(line);
    assert 'y' !in lower;
    MissingCharNotContained(lower, ResponsibilityWord, 13);
  }

  /** A line made of printable ASCII characters holds no line break. */
  lemma PrintableLine(line: String)
    requires forall i :: 0 <= i < |line| ==> ' ' <= line[i] <= '~'
    ensures NoLineBreak(line)
  {
  }

  /** A line without a "q" in either case does not contain "requirement". */
  lemma LacksRequirement(line: String)
    requires forall i :: 0 <= i < |line| ==> line[i] != 'q' && line[i] != 'Q'
    ensures !Contains(ToLower(line), RequirementWord)
  {
    var lower := ToLower(line);
    assert 'q' !in lower;
    MissingCharNotContained(lower, RequirementWord, 2);
  }

  /** A line that neither starts nor ends with whitespace strips to itself. */
  lemma UnpaddedLine(line: String)
    requires line != [] && !IsSpace(line[0]) && !IsSpace(line[|line| - 1])
    ensures Strip(line) == line
  {
    assert [] + line + [] == line;
    StripPadded([], line, []);
  }

  // ---------------------------------------------------------------------
  // extract_keywords

  /** The set the loop of `extract_keywords` has built once it has seen
      `words`: the lower-cased words longer than MinKeywordLength, where the
      length is taken before lower-casing. */
  function KeywordSet(words: seq<String>): set<String>
  {
    if words == [] then {}
    else
      var w := words[|words| - 1];
      KeywordSet(words[..|words| - 1]) + (if |w| > MinKeywordLength then {ToLower(w)} else {})
  }

  /** The keywords of a text: those of its whitespace-separated words. */
  function Keywords(text: String): set<String>
  {
    KeywordSet(SplitWs(text))
  }

  /** `extract_keywords`: the loop adds each long word, lower-cased, to a
      set; `list(...)` then lists the set in an order of its own choosing,
      each keyword once. */
  method ExtractKeywords(text: String) returns (keywords: seq<String>)
    ensures forall k :: k in keywords <==> k in Keywords(text)
    ensures forall i, j :: 0 <= i < j < |keywords| ==> keywords[i] != keywords[j]
  {
    var words := SplitWs(text);
    var found: set<String> := {};
    for i := 0 to |words|
      invariant found == KeywordSet(words[..i])
    {
      assert words[..i + 1][..i] == words[..i];
      if |words[i]| > MinKeywordLength {
        found := found + {ToLower(words[i])};
      }
    }
    assert words[..|words|] == words;
    keywords := [];
    var rest := found;
    while rest != {}
      invariant rest <= found
      invariant forall k :: k in keywords <==> k in found && k !in rest
      invariant forall i, j :: 0 <= i < j < |keywords| ==> keywords[i] != keywords[j]
      decreases |rest|
    {
      var k :| k in rest;
      keywords := keywords + [k];
      rest := rest - {k};
    }
  }

  /** A keyword is in the set exactly when some word longer than
      MinKeywordLength lower-cases to it. */
  lemma {:induction false} KeywordSetMembership(words: seq<String>, k: String)
    ensures k in KeywordSet(words) <==>
            exists i :: 0 <= i < |words| && |words[i]| > MinKeywordLength && ToLower(words[i]) == k
  {
    if words != [] {
      var n := |words| - 1;
      var prefix := words[..n];
      KeywordSetMembership(prefix, k);
      if i :| 0 <= i < n && |prefix[i]| > MinKeywordLength && ToLower(prefix[i]) == k {
        assert words[i] == prefix[i];
      }
      if i :| 0 <= i < |words| && |words[i]| > MinKeywordLength && ToLower(words[i]) == k {
        if i < n {
          assert prefix[i] == words[i];
        }
      }
    }
  }

  /** Soundness and completeness: a string is a keyword of the text exactly
      when it is the lower-cased form of a whitespace-separated word of the
      text with more than MinKeywordLength characters. */
  lemma KeywordsOfText(text: String, k: String)
    ensures k in Keywords(text) <==>
            exists w :: w in SplitWs(text) && |w| > MinKeywordLength && ToLower(w) == k
  {
    var words := SplitWs(text);
    KeywordSetMembership(words, k);
    if w :| w in words && |w| > MinKeywordLength && ToLower(w) == k {
      var i :| 0 <= i < |words| && words[i] == w;
    }
  }

  /** Every keyword is longer than MinKeywordLength, already lower case, and
      free of whitespace. */
  lemma KeywordShape(text: String, k: String)
    requires k in Keywords(text)
    ensures |k| > MinKeywordLength && ToLower(k) == k && IsLower(k) && NoSpace(k)
  {
    KeywordsOfText(text, k);
    var w :| w in SplitWs(text) && |w| > MinKeywordLength && ToLower(w) == k;
    ToLowerProperties(w);
  }

  /** The keywords of a concatenation are the union of the keywords. */
  lemma {:induction false} KeywordSetAppend(a: seq<String>, b: seq<String>)
    ensures KeywordSet(a + b) == KeywordSet(a) + KeywordSet(b)
    decreases |b|
  {
    if b == [] {
      assert a + b == a;
    } else {
      var n := |b| - 1;
      assert (a + b)[..|a + b| - 1] == a + b[..n];
      KeywordSetAppend(a, b[..n]);
    }
  }

  /** Texts joined by any whitespace character (a space, or the newline
      between two lines of a description) have the union of their keywords. */
  lemma KeywordsAppend(a: String, c: char, b: String)
    requires IsSpace(c)
    ensures Keywords(a + [c] + b) == Keywords(a) + Keywords(b)
  {
    SplitWsAppend(a, c, b);
    KeywordSetAppend(SplitWs(a), SplitWs(b));
  }

  /** Repeating the text adds no keyword: the result is a set. */
  lemma KeywordsIdempotent(text: String)
    ensures Keywords(text + " " + text) == Keywords(text)
  {
    assert text + " " + text == text + [' '] + text;
    KeywordsAppend(text, ' ', text);
  }
}
