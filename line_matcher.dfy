/** The line-wise search of the scanner (FileContainsString): the file is read as
    text line by line and the search stops at the first line that contains the
    term under ordinal, case-insensitive comparison. */
module LineMatcher {

  /** The per-character mapping the case-insensitive comparison compares under.
      The culture-independent mapping of the runtime is not modelled; it is a
      parameter. */
  type Fold = char -> char

  /** Upper-casing of the 26 ASCII letters; every other character maps to itself.
      One instance of Fold. */
  function AsciiUpper(c: char): char {
    if 'a' <= c <= 'z' then (c as int - 32) as char else c
  }

  /** The term occurs in the line at offset k, character by character under fold. */
  predicate MatchesAt(line: string, term: string, k: nat, fold: Fold)
    requires k + |term| <= |line|
  {
    forall j | 0 <= j < |term| :: fold(line[k + j]) == fold(term[j])
  }

  /** The line contains the term under ordinal, case-insensitive comparison. */
  predicate ContainsIgnoreCase(line: string, term: string, fold: Fold) {
    exists k: nat | k + |term| <= |line| :: MatchesAt(line, term, k, fold)
  }

  /** Some line of the file contains the term. */
  predicate SomeLineContains(lines: seq<string>, term: string, fold: Fold) {
    exists i | 0 <= i < |lines| :: ContainsIgnoreCase(lines[i], term, fold)
  }

  /** What the successive line reads of a file deliver: `lines` in order, then
      either end of file or, when `failsAtEnd`, an exception. A file that cannot be
      opened has no lines and fails at once. */
  datatype LineSource = LineSource(lines: seq<string>, failsAtEnd: bool)

  /** FileContainsString: true exactly when some line read contains the term. An
      exception after the lines is caught and, like end of file, gives false. */
  method FileContainsString(src: LineSource, term: string, fold: Fold) returns (found: bool)
    ensures found <==> SomeLineContains(src.lines, term, fold)
  {
    var k := 0;
    while k < |src.lines|
      invariant 0 <= k <= |src.lines|
      invariant forall i | 0 <= i < k :: !ContainsIgnoreCase(src.lines[i], term, fold)
    {
      var line := src.lines[k];
      if ContainsIgnoreCase(line, term, fold) {
        return true;
      }
      k := k + 1;
    }
    // end of file, or an exception swallowed by the catch: both give false
    return false;
  }

  /** An empty term is contained in every line, at offset 0. */
  lemma EmptyTermInEveryLine(line: string, fold: Fold)
    ensures ContainsIgnoreCase(line, "", fold)
  {
    assert MatchesAt(line, "", 0, fold);
  }

  /** With an empty term the search succeeds exactly for files with a line, and a
      file without lines never matches. */
  lemma EmptyTermMatchesIffSomeLine(lines: seq<string>, fold: Fold)
    ensures SomeLineContains(lines, "", fold) <==> |lines| > 0
  {
    if |lines| > 0 {
      EmptyTermInEveryLine(lines[0], fold);
    }
  }

  /** The mapping of a case-sensitive ordinal comparison: none. */
  function Ordinal(c: char): char {
    c
  }

  /** Every character of s, mapped by fold. */
  function FoldAll(s: string, fold: Fold): string {
    seq(|s|, i requires 0 <= i < |s| => fold(s[i]))
  }

  /** Case-insensitive containment is exact (ordinal) containment of the folded
      line and the folded term. */
  lemma FoldedContainment(line: string, term: string, fold: Fold)
    ensures ContainsIgnoreCase(line, term, fold) <==>
      ContainsIgnoreCase(FoldAll(line, fold), FoldAll(term, fold), Ordinal)
  {
    var fl, ft := FoldAll(line, fold), FoldAll(term, fold);
    forall k: nat | k + |term| <= |line|
      ensures MatchesAt(line, term, k, fold) <==> MatchesAt(fl, ft, k, Ordinal)
    {
      assert forall j | 0 <= j < |term| :: fl[k + j] == fold(line[k + j]) && ft[j] == fold(term[j]);
    }
  }
}
