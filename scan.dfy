/** The counting and collecting loop of the scan (SearchStringInFiles): every
    enumerated file is counted as scanned, and the files that are text and contain
    the search term are collected in enumeration order. */
module Scan {
  import opened Utf8Shape
  import opened FileClassifier
  import opened LineMatcher

  /** One enumerated file: its path, what reading its bytes delivers and what
      reading it line by line as text delivers. */
  datatype FileEntry = FileEntry(path: string, bytes: ByteStream, text: LineSource)

  /** A file is reported when it is classified as text and a line contains the term. */
  predicate IsMatch(f: FileEntry, term: string, fold: Fold) {
    ReadsText(f.bytes.chunks, f.bytes.failsAtEnd) && SomeLineContains(f.text.lines, term, fold)
  }

  /** The paths of the matching files, in enumeration order. */
  function FoundPaths(files: seq<FileEntry>, term: string, fold: Fold): seq<string>
    decreases |files|
  {
    if files == [] then []
    else
      var last := files[|files| - 1];
      FoundPaths(files[..|files| - 1], term, fold) + (if IsMatch(last, term, fold) then [last.path] else [])
  }

  /** The loop of SearchStringInFiles over the enumerated files: the final values of
      its counters and of its list of found files. */
  method SearchStringInFiles(files: seq<FileEntry>, searchString: string, fold: Fold)
    returns (scannedFiles: nat, foundFilesCount: nat, foundFiles: seq<string>)
    requires forall i | 0 <= i < |files| :: ValidStream(files[i].bytes)
    ensures scannedFiles == |files|
    ensures foundFilesCount == |foundFiles|
    ensures foundFiles == FoundPaths(files, searchString, fold)
  {
    scannedFiles, foundFilesCount, foundFiles := 0, 0, [];
    for k := 0 to |files|
      invariant scannedFiles == k
      invariant foundFilesCount == |foundFiles|
      invariant foundFiles == FoundPaths(files[..k], searchString, fold)
    {
      var file := files[k];
      scannedFiles := scannedFiles + 1;
      // both checks catch their own exceptions, so the catch around them never runs
      var isText := IsUtf8File(file.bytes);
      var matched := false;
      if isText {
        matched := FileContainsString(file.text, searchString, fold);
      }
      if matched {
        foundFiles := foundFiles + [file.path];
        foundFilesCount := foundFilesCount + 1;
      }
      assert files[..k + 1][..k] == files[..k];
    }
    assert files[..|files|] == files;
  }

  /** The found paths are exactly the paths of the matching files, never more than
      the files scanned. */
  lemma {:induction false} FoundPathsCharacterised(files: seq<FileEntry>, term: string, fold: Fold)
    ensures |FoundPaths(files, term, fold)| <= |files|
    ensures forall p :: p in FoundPaths(files, term, fold) <==>
      exists i | 0 <= i < |files| :: files[i].path == p && IsMatch(files[i], term, fold)
    decreases |files|
  {
    if files != [] {
      var init := files[..|files| - 1];
      FoundPathsCharacterised(init, term, fold);
      assert forall i | 0 <= i < |init| :: init[i] == files[i];
    }
  }

  /** Scanning one list after another finds the files of the first, then those of
      the second: the result is the ordered selection of the matching files. */
  lemma {:induction false} FoundPathsAppend(a: seq<FileEntry>, b: seq<FileEntry>, term: string, fold: Fold)
    ensures FoundPaths(a + b, term, fold) == FoundPaths(a, term, fold) + FoundPaths(b, term, fold)
    decreases |b|
  {
    if b == [] {
      assert a + b == a;
    } else {
      var b' := b[..|b| - 1];
      assert (a + b)[..|a + b| - 1] == a + b';
      FoundPathsAppend(a, b', term, fold);
    }
  }

  /** A file that is not text is never reported, whatever its lines hold. */
  lemma BinaryFileNotFound(f: FileEntry, term: string, fold: Fold)
    requires !ReadsText(f.bytes.chunks, f.bytes.failsAtEnd)
    ensures FoundPaths([f], term, fold) == []
  {
    assert [f][..0] == [];
  }

  /** A file holding "Hello World". */
  const HelloUpper := FileEntry("a.txt",
    ByteStream([[0x48, 0x65, 0x6C, 0x6C, 0x6F, 0x20, 0x57, 0x6F, 0x72, 0x6C, 0x64]], false),
    LineSource(["Hello World"], false))
  /** A file holding the bytes FF FE. */
  const NotText := FileEntry("b.bin", ByteStream([[0xFF, 0xFE]], false), LineSource([], false))
  /** A file holding "hello world". */
  const HelloLower := FileEntry("c.txt",
    ByteStream([[0x68, 0x65, 0x6C, 0x6C, 0x6F, 0x20, 0x77, 0x6F, 0x72, 0x6C, 0x64]], false),
    LineSource(["hello world"], false))

  /** A file whose only read delivers ASCII bytes, with no exception, is text. */
  lemma AsciiFileIsText(bytes: seq<bv8>)
    requires forall k | 0 <= k < |bytes| :: bytes[k] <= 0x7F
    ensures ReadsText([bytes], false)
  {
    AsciiIsWellShaped(bytes);
    assert [bytes][1..] == [];
  }

  /** A file whose first line starts with the term matches, once it is text. */
  lemma FirstLineStartsWithTerm(f: FileEntry, term: string, fold: Fold)
    requires ReadsText(f.bytes.chunks, f.bytes.failsAtEnd)
    requires f.text.lines != [] && |term| <= |f.text.lines[0]|
    requires MatchesAt(f.text.lines[0], term, 0, fold)
    ensures IsMatch(f, term, fold)
  {
  }

  /** Both text files contain "Hello" when case is ignored; FF FE is not text. */
  lemma HelloFilesClassified()
    ensures IsMatch(HelloUpper, "Hello", AsciiUpper)
    ensures IsMatch(HelloLower, "Hello", AsciiUpper)
    ensures !ReadsText(NotText.bytes.chunks, NotText.bytes.failsAtEnd)
    ensures !IsMatch(NotText, "Hello", AsciiUpper)
  {
    AsciiFileIsText(HelloUpper.bytes.chunks[0]);
    assert MatchesAt(HelloUpper.text.lines[0], "Hello", 0, AsciiUpper);
    FirstLineStartsWithTerm(HelloUpper, "Hello", AsciiUpper);
    AsciiFileIsText(HelloLower.bytes.chunks[0]);
    assert MatchesAt(HelloLower.text.lines[0], "Hello", 0, AsciiUpper);
    FirstLineStartsWithTerm(HelloLower, "Hello", AsciiUpper);
    assert SequenceLength(NotText.bytes.chunks[0][0]) == 0;
  }

  /** Searching the three files for "Hello" while ignoring case finds the first and
      the third, in that order. */
  lemma HelloScenario()
    ensures FoundPaths([HelloUpper, NotText, HelloLower], "Hello", AsciiUpper) == ["a.txt", "c.txt"]
  {
    HelloFilesClassified();
    var files := [HelloUpper, NotText, HelloLower];
    assert files[..2] == [HelloUpper, NotText] && files[..2][..1] == [HelloUpper] && files[..1][..0] == [];
    assert FoundPaths([HelloUpper], "Hello", AsciiUpper) == ["a.txt"];
  }

  /** The scan loop run over the three files: three scanned, two found. */
  method ScanHelloFiles() returns (scannedFiles: nat, foundFilesCount: nat, foundFiles: seq<string>)
    ensures scannedFiles == 3 && foundFilesCount == 2 && foundFiles == ["a.txt", "c.txt"]
  {
    var files := [HelloUpper, NotText, HelloLower];
    assert forall i | 0 <= i < |files| :: ValidStream(files[i].bytes);
    HelloScenario();
    scannedFiles, foundFilesCount, foundFiles := SearchStringInFiles(files, "Hello", AsciiUpper);
  }
}
