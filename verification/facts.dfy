/**
 * Parsing of the fact extractor's output.  The extractor answers with one
 * candidate fact per line, `entity1|relationship|entity2|confidence`, or the
 * word NONE.  Lines without a '|' or with fewer than three fields are
 * skipped; every field is stripped; a missing confidence means "MEDIUM".
 */
module Facts {
  import opened Wrappers
  import opened Text

  /** A candidate fact as extracted, before validation. */
  datatype Fact = Fact(entity1: string, relationship: string, entity2: string, confidence: string)

  const Delimiter: char := '|'
  const DefaultConfidence: string := "MEDIUM"
  const NoFactsAnswer: string := "NONE"

  /** A field that survives a format-then-parse round trip unchanged. */
  predicate CleanField(x: string) {
    Stripped(x) && Delimiter !in x && '\n' !in x
  }

  /** The lines that go on to parsing: stripped, non-empty and containing a '|'. */
  function CandidateLines(lines: seq<string>): (r: seq<string>)
    ensures |r| <= |lines|
    ensures forall k :: 0 <= k < |r| ==> Delimiter in r[k] && Stripped(r[k])
  {
    if lines == [] then []
    else
      var line := lines[0];
      var keep := Strip(line) != [] && Delimiter in line;
      if keep then
        StripKeeps(line, Delimiter);
        var rest := CandidateLines(lines[1..]);
        var r := [Strip(line)] + rest;
        assert forall k :: 0 < k < |r| ==> r[k] == rest[k - 1];
        r
      else
        CandidateLines(lines[1..])
  }

  /** One candidate line: at least three fields, each stripped; the fourth
      field is the confidence, "MEDIUM" when absent; later fields are ignored. */
  function ParseLine(line: string): (r: Option<Fact>)
    ensures r.Some? <==> |Split(line, Delimiter)| >= 3
    ensures r.Some? ==> Stripped(r.value.entity1) && Stripped(r.value.relationship)
                        && Stripped(r.value.entity2) && Stripped(r.value.confidence)
    ensures r.Some? ==> Delimiter !in r.value.entity1 && Delimiter !in r.value.relationship
                        && Delimiter !in r.value.entity2
    ensures r.Some? && |Split(line, Delimiter)| == 3 ==> r.value.confidence == DefaultConfidence
  {
    var parts := Split(line, Delimiter);
    if |parts| >= 3 then
      StripSubset(parts[0]);
      StripSubset(parts[1]);
      StripSubset(parts[2]);
      Some(Fact(Strip(parts[0]), Strip(parts[1]), Strip(parts[2]),
                if |parts| > 3 then Strip(parts[3]) else DefaultConfidence))
    else
      None
  }

  /** All fields of a parsed fact are stripped. */
  predicate StrippedFact(f: Fact) {
    Stripped(f.entity1) && Stripped(f.relationship) && Stripped(f.entity2) && Stripped(f.confidence)
  }

  /** The fact of one line, if it has one. */
  function LineFacts(line: string): (r: seq<Fact>)
    ensures |r| <= 1
  {
    match ParseLine(line)
    case Some(f) => [f]
    case None => []
  }

  /** The facts of a sequence of candidate lines, in line order. */
  function FactsOfLines(lines: seq<string>): (r: seq<Fact>)
    ensures |r| <= |lines|
  {
    FlatMapShort(LineFacts, lines);
    FlatMap(LineFacts, lines)
  }

  /** `f` applied to each element, the results concatenated in order. */
  function FlatMap<A, B>(f: A -> seq<B>, s: seq<A>): seq<B> {
    if s == [] then [] else f(s[0]) + FlatMap(f, s[1..])
  }

  lemma {:induction false} FlatMapShort<A, B>(f: A -> seq<B>, s: seq<A>)
    requires forall x :: |f(x)| <= 1
    ensures |FlatMap(f, s)| <= |s|
    decreases |s|
  {
    if s != [] { FlatMapShort(f, s[1..]); }
  }

  lemma {:induction false} FlatMapAppend<A, B>(f: A -> seq<B>, a: seq<A>, b: seq<A>)
    ensures FlatMap(f, a + b) == FlatMap(f, a) + FlatMap(f, b)
    decreases |a|
  {
    if a == [] {
      assert a + b == b;
    } else {
      assert (a + b)[0] == a[0];
      assert (a + b)[1..] == a[1..] + b;
      FlatMapAppend(f, a[1..], b);
    }
  }

  lemma {:induction false} FactsOfLinesStripped(lines: seq<string>)
    ensures forall k :: 0 <= k < |FactsOfLines(lines)| ==> StrippedFact(FactsOfLines(lines)[k])
    decreases |lines|
  {
    if lines != [] {
      FactsOfLinesStripped(lines[1..]);
      var h, t := LineFacts(lines[0]), FactsOfLines(lines[1..]);
      assert FactsOfLines(lines) == h + t;
      assert forall k :: 0 <= k < |h| ==> StrippedFact(h[k]);
    }
  }

  /** `store_in_knowledge_graph`'s reading of the extractor answer. */
  function ParseFacts(text: string): (r: seq<Fact>)
    ensures text == "" || text == NoFactsAnswer ==> r == []
    ensures forall k :: 0 <= k < |r| ==> StrippedFact(r[k])
  {
    if text == "" || text == NoFactsAnswer then []
    else
      FactsOfLinesStripped(CandidateLines(Split(text, '\n')));
      FactsOfLines(CandidateLines(Split(text, '\n')))
  }

  /** The extractor's line format. */
  function FormatFact(f: Fact): string {
    Join([f.entity1, f.relationship, f.entity2, f.confidence], [Delimiter])
  }

  // ---------------------------------------------------------------------
  // Properties
  // ---------------------------------------------------------------------

  lemma {:induction false} CandidateLinesAppend(a: seq<string>, b: seq<string>)
    ensures CandidateLines(a + b) == CandidateLines(a) + CandidateLines(b)
    decreases |a|
  {
    if a != [] {
      assert (a + b)[0] == a[0];
      assert (a + b)[1..] == a[1..] + b;
      CandidateLinesAppend(a[1..], b);
    } else {
      assert a + b == b;
    }
  }

  lemma FactsOfLinesAppend(a: seq<string>, b: seq<string>)
    ensures FactsOfLines(a + b) == FactsOfLines(a) + FactsOfLines(b)
  {
    FlatMapAppend(LineFacts, a, b);
  }

  /** The early return for "" and "NONE" changes nothing: neither text has a
      line containing '|'. */
  lemma NoneGuardRedundant(text: string)
    ensures ParseFacts(text) == FactsOfLines(CandidateLines(Split(text, '\n')))
  {
    if text == NoFactsAnswer {
      assert Delimiter !in text;
      assert Split(text, '\n') == [text];
    }
  }

  /** Lines are parsed independently: the facts of two texts joined by a
      newline are the facts of the first followed by those of the second. */
  lemma ParseFactsAround(a: string, b: string)
    ensures ParseFacts(a + "\n" + b) == ParseFacts(a) + ParseFacts(b)
  {
    NoneGuardRedundant(a);
    NoneGuardRedundant(b);
    NoneGuardRedundant(a + "\n" + b);
    SplitAround(a, b, '\n');
    CandidateLinesAppend(Split(a, '\n'), Split(b, '\n'));
    FactsOfLinesAppend(CandidateLines(Split(a, '\n')), CandidateLines(Split(b, '\n')));
  }

  /** A line without '|', or with fewer than three fields, yields no fact. */
  lemma MalformedLineYieldsNothing(line: string)
    requires '\n' !in line
    requires Delimiter !in line || |Split(Strip(line), Delimiter)| < 3
    ensures ParseFacts(line) == []
  {
    NoneGuardRedundant(line);
    assert Split(line, '\n') == [line];
    assert [line][1..] == [];
    if Strip(line) != [] && Delimiter in line {
      assert CandidateLines([line]) == [Strip(line)];
      assert FactsOfLines([Strip(line)]) == LineFacts(Strip(line)) + FactsOfLines([]);
    } else {
      assert CandidateLines([line]) == [];
    }
  }

  /** A malformed line between two others is skipped without affecting them. */
  lemma MalformedLineSkipped(before: string, line: string, after: string)
    requires '\n' !in line
    requires Delimiter !in line || |Split(Strip(line), Delimiter)| < 3
    ensures ParseFacts(before + "\n" + line + "\n" + after) == ParseFacts(before) + ParseFacts(after)
  {
    MalformedLineYieldsNothing(line);
    ParseFactsAround(before + "\n" + line, after);
    ParseFactsAround(before, line);
  }

  /** A line made of clean fields is already stripped. */
  lemma JoinedFieldsStripped(parts: seq<string>)
    requires |parts| >= 2
    requires forall k :: 0 <= k < |parts| ==> CleanField(parts[k])
    ensures Stripped(Join(parts, [Delimiter])) && Delimiter in Join(parts, [Delimiter])
    ensures '\n' !in Join(parts, [Delimiter])
  {
    var j := Join(parts, [Delimiter]);
    JoinFirst(parts, [Delimiter]);
    JoinLast(parts, [Delimiter]);
    JoinExcludes(parts, [Delimiter], '\n');
    assert j == parts[0] + [Delimiter] + Join(parts[1..], [Delimiter]);
    assert j[|parts[0]|] == Delimiter;
  }

  /** A line joined from clean fields is parsed into those fields. */
  lemma ParseCleanLine(parts: seq<string>)
    requires |parts| >= 3
    requires forall k :: 0 <= k < |parts| ==> CleanField(parts[k])
    ensures ParseFacts(Join(parts, [Delimiter]))
            == [Fact(parts[0], parts[1], parts[2], if |parts| > 3 then parts[3] else DefaultConfidence)]
  {
    var line := Join(parts, [Delimiter]);
    JoinedFieldsStripped(parts);
    JoinThenSplit(parts, Delimiter);
    OneLineFacts(line);
    assert ParseLine(line) == Some(Fact(parts[0], parts[1], parts[2], if |parts| > 3 then parts[3] else DefaultConfidence));
  }

  /** `CandidateLines` on one line: kept, stripped, exactly when its
      stripped text is non-empty and it contains a '|'.  With
      `CandidateLinesAppend` this determines the filter on every input. */
  lemma CandidateLinesOfOne(line: string)
    ensures CandidateLines([line]) == if Strip(line) != [] && Delimiter in line then [Strip(line)] else []
  {
    assert [line][1..] == [];
  }

  /** Whitespace around a line does not change how it parses. */
  lemma ParseLineStripped(line: string)
    ensures ParseLine(Strip(line)) == ParseLine(line)
  {
    StripThenSplit(line, Delimiter);
    var a, b := Split(line, Delimiter), Split(Strip(line), Delimiter);
    if |a| >= 3 {
      assert Strip(a[0]) == Strip(b[0]);
      assert Strip(a[1]) == Strip(b[1]);
      assert Strip(a[2]) == Strip(b[2]);
      if |a| > 3 { assert Strip(a[3]) == Strip(b[3]); }
    }
  }

  /** Each field with its own whitespace on either side. */
  function Padded(pre: seq<string>, fields: seq<string>, post: seq<string>): (r: seq<string>)
    requires |pre| == |fields| == |post|
    ensures |r| == |fields|
    ensures forall k :: 0 <= k < |r| ==> r[k] == pre[k] + fields[k] + post[k]
  {
    seq(|fields|, k requires 0 <= k < |fields| => pre[k] + fields[k] + post[k])
  }

  /** Whitespace is neither the delimiter nor part of a visible field. */
  lemma PaddedPieceClean(p: string, x: string, q: string)
    requires AllSpace(p) && AllSpace(q) && CleanField(x)
    requires '\n' !in p && '\n' !in q
    ensures Delimiter !in p + x + q && '\n' !in p + x + q
    ensures Strip(p + x + q) == x
  {
    assert forall k :: 0 <= k < |p| ==> p[k] != Delimiter;
    assert forall k :: 0 <= k < |q| ==> q[k] != Delimiter;
    StripPadded(p, x, q);
  }

  /** A single line containing a '|' yields exactly the fact it parses to,
      whatever whitespace surrounds it. */
  lemma OneLineFacts(line: string)
    requires '\n' !in line && Delimiter in line
    ensures ParseFacts(line) == LineFacts(line)
  {
    SplitNone(line, '\n');
    NoneGuardRedundant(line);
    StripKeeps(line, Delimiter);
    CandidateLinesOfOne(line);
    ParseLineStripped(line);
    assert FactsOfLines([Strip(line)]) == LineFacts(Strip(line)) + FactsOfLines([]);
  }

  /** A line of fields, each padded with whitespace other than a newline, is
      parsed into the bare fields: every field is stripped on its own. */
  lemma ParsePaddedLine(pre: seq<string>, fields: seq<string>, post: seq<string>)
    requires |fields| >= 3 && |pre| == |fields| == |post|
    requires forall k :: 0 <= k < |fields| ==> CleanField(fields[k])
    requires forall k :: 0 <= k < |fields| ==> AllSpace(pre[k]) && '\n' !in pre[k]
    requires forall k :: 0 <= k < |fields| ==> AllSpace(post[k]) && '\n' !in post[k]
    ensures ParseFacts(Join(Padded(pre, fields, post), [Delimiter]))
            == [Fact(fields[0], fields[1], fields[2], if |fields| > 3 then fields[3] else DefaultConfidence)]
  {
    var parts := Padded(pre, fields, post);
    var line := Join(parts, [Delimiter]);
    forall k | 0 <= k < |parts|
      ensures Delimiter !in parts[k] && '\n' !in parts[k] && Strip(parts[k]) == fields[k]
    {
      PaddedPieceClean(pre[k], fields[k], post[k]);
    }
    JoinThenSplit(parts, Delimiter);
    JoinExcludes(parts, [Delimiter], '\n');
    assert line == parts[0] + [Delimiter] + Join(parts[1..], [Delimiter]);
    assert line[|parts[0]|] == Delimiter;
    OneLineFacts(line);
  }

  /** Parsing a formatted fact with clean fields gives the fact back. */
  lemma FormatThenParse(f: Fact)
    requires CleanField(f.entity1) && CleanField(f.relationship) && CleanField(f.entity2) && CleanField(f.confidence)
    ensures ParseFacts(FormatFact(f)) == [f]
  {
    ParseCleanLine([f.entity1, f.relationship, f.entity2, f.confidence]);
  }

  /** A three-field line gets the default confidence "MEDIUM". */
  lemma ThreeFieldsDefaultMedium(entity1: string, relationship: string, entity2: string)
    requires CleanField(entity1) && CleanField(relationship) && CleanField(entity2)
    ensures ParseFacts(entity1 + [Delimiter] + relationship + [Delimiter] + entity2)
            == [Fact(entity1, relationship, entity2, DefaultConfidence)]
  {
    var parts := [entity1, relationship, entity2];
    assert Join(parts, [Delimiter]) == entity1 + [Delimiter] + relationship + [Delimiter] + entity2 by {
      assert parts[1..][1..] == [entity2];
      assert parts[1..] == [relationship, entity2];
      assert Join([relationship, entity2], [Delimiter]) == relationship + [Delimiter] + entity2;
      assert Join(parts, [Delimiter]) == entity1 + [Delimiter] + (relationship + [Delimiter] + entity2);
    }
    ParseCleanLine(parts);
  }
}
