# FileScanner content search, modelled in Dafny

FileScanner is a console tool that walks a directory tree and reports the files
that are UTF-8 text and contain a search string, ignoring case. This project
models the sequential core of `Program.cs`:

- `IsValidUtf8` (module `Utf8Shape`, file `utf8_shape.dfy`): the byte-level
  check of one buffer. It is a method with the `while` loop and bit masks of
  `Program.cs`, over an `array<bv8>`. It is proved equal to `WellShaped`, a
  recursive predicate that peels off one lead byte and its continuation bytes at
  a time.
- The reference syntax of section 4 of RFC 3629 (module `Rfc3629`, file
  `rfc3629.dfy`). Every byte string in that syntax passes the check. Overlong
  forms, surrogates and values above U+10FFFF pass it too, because the check looks
  only at bit patterns.
- `IsUtf8File` (module `FileClassifier`, file `file_classifier.dfy`): the read
  loop over a 1024-byte buffer. A file is a `ByteStream`: the chunks its reads
  return, and whether the read after them throws. The method copies each chunk
  into the front of the buffer and checks only the `bytesRead` bytes, so stale
  bytes from an earlier read do not count. A character split across two reads
  makes the file binary, and this is proved for the real 1024-byte boundary.
- `FileContainsString` (module `LineMatcher`, file `line_matcher.dfy`): the line
  loop with its early return. A file is a `LineSource`: its lines, and whether
  the read after them throws. The case-insensitive ordinal comparison is
  containment under a per-character `Fold` function.
- The counting and collecting loop of `SearchStringInFiles` (module `Scan`, file
  `scan.dfy`). Its input is the enumerated files as a sequence. It returns the
  final `scannedFiles`, `foundFilesCount` and `foundFiles`.

Exceptions are modelled as an explicit outcome of the input streams, never as a
precondition. A file that cannot be opened is a stream that has no data and fails
at once.

Some behaviour of the code that a reader might expect otherwise:

- The code takes no case-sensitivity flag. It always compares ordinally,
  ignoring case.
- The code scans sequentially, not with a worker pool.
- The code collects matches in a list in enumeration order and keeps no error
  count.
- The code does not reject an empty search term. An empty term matches every
  file that is text and has at least one line (`EmptyTermMatchesIffSomeLine`).

## Model

| member | source | states |
|---|---|---|
| `Utf8Shape.SequenceLength` | Program.cs:131-157 | A lead byte announces 1 byte exactly when it is below 0x80, 2 bytes exactly for 0xC0-0xDF (`110xxxxx`), 3 for 0xE0-0xEF (`1110xxxx`) and 4 for 0xF0-0xF7 (`11110xxx`). It is refused (length 0) exactly when it is a continuation byte `10xxxxxx` or at least 0xF8 (`11111xxx`). No group is longer than 4 bytes. |
| `Utf8Shape.IsValidUtf8` | Program.cs:124-161 | The result is `WellShaped(bytes[..length])`, so nothing at or past `length` affects it. A length of 0 or less is accepted. |
| `Utf8Shape.AsciiIsWellShaped` | Program.cs:131-135 | Bytes that are all at most 0x7F are always accepted. |
| `Utf8Shape.PrefixTransparent` | Program.cs:127-158 | After a prefix made of complete groups, acceptance of the whole is decided by the rest alone (both directions). |
| `Utf8Shape.ConcatWellShaped` | Program.cs:127-158 | Two accepted byte strings are accepted when joined. |
| `Utf8Shape.BadLeadRejected` | Program.cs:154-157 | A lead `10xxxxxx` or `11111xxx` at any group boundary makes the result false. |
| `Utf8Shape.TruncatedSequenceRejected` | Program.cs:136-153 | A 2-, 3- or 4-byte lead whose continuation bytes would reach `length` makes the result false, whatever the array holds past `length`. |
| `Rfc3629.WellFormedIsWellShaped` | Program.cs:136-153 | Every byte string in the UTF-8 syntax of section 4 of RFC 3629 is accepted. |
| `Rfc3629.ShapeCheckAcceptsMore` | Program.cs:136-153 | `C0 80` (overlong), `ED A0 80` (surrogate) and `F4 90 80 80` (above U+10FFFF) are accepted but are outside the syntax of RFC 3629. |
| `FileClassifier.IsUtf8File` | Program.cs:102-122 | The result is the verdict of the read loop: false at the first chunk that fails `IsValidUtf8`, or when a read throws; true when end of file is reached. |
| `FileClassifier.TextIffEveryChunkWellShaped` | Program.cs:107-116 | A file is text if and only if no read throws and every chunk passes the check on its own. |
| `FileClassifier.FailureIsNotText` | Program.cs:118-121 | Any I/O exception, when opening or at any read, makes the file binary. |
| `FileClassifier.EmptyFileIsText` | Program.cs:110-116 | A file whose first read reports end of file is text. |
| `FileClassifier.TextIsWellShaped` | Program.cs:107-116 | A file classified as text is well shaped as a whole, so there are no false positives. |
| `FileClassifier.SplitCharacterMisclassified` | Program.cs:107-113 | A character of 2, 3 or 4 bytes that the boundary between two consecutive reads cuts at any point inside it, at any position in the stream and with well-shaped reads before and after, makes the file binary, although the whole content is well shaped and every read is a valid size. |
| `FileClassifier.ChunkEndingInsideGroupIsBinary` | Program.cs:110-113 | A chunk that ends inside a group, at any position in the stream, makes the file binary, whatever the earlier and later reads deliver. |
| `FileClassifier.SplitAtBufferBoundary` | Program.cs:107-113 | The character U+00E9 (`C3 A9`) with its lead at offset 1023 of a full 1024-byte read makes the file binary. |
| `LineMatcher.FileContainsString` | Program.cs:86-100 | The result is true if and only if some line contains the term under ordinal case-insensitive comparison. An exception after the lines gives false, like end of file. |
| `LineMatcher.EmptyTermInEveryLine` | Program.cs:94 | Every line contains the empty term. |
| `LineMatcher.EmptyTermMatchesIffSomeLine` | Program.cs:92-99 | With an empty term, a file matches if and only if it has a line. A file without lines never matches. |
| `LineMatcher.FoldedContainment` | Program.cs:94 | Case-insensitive containment is exact ordinal containment of the folded line and the folded term. |
| `Scan.SearchStringInFiles` | Program.cs:29-64 | `scannedFiles` is the number of enumerated files, `foundFilesCount` equals the length of `foundFiles`, and `foundFiles` lists the paths of the files that are text and contain the term, in enumeration order. |
| `Scan.FoundPathsCharacterised` | Program.cs:40-53 | A path is found exactly when some enumerated file with that path is text and contains the term. No more paths are found than files are scanned. |
| `Scan.FoundPathsAppend` | Program.cs:40-53 | Scanning one list of files and then another finds the matches of the first followed by those of the second. |
| `Scan.BinaryFileNotFound` | Program.cs:48 | A file that is not text is never reported, whatever its lines contain. |
| `Scan.HelloFilesClassified` | Program.cs:48 | "Hello World" and "hello world" contain "Hello" when case is ignored. The bytes `FF FE` are not text, so that file is not reported. |
| `Scan.HelloScenario` | Program.cs:40-53 | Of those three files, the ones reported for "Hello" are `a.txt` and `c.txt`, in that order. |
| `Scan.ScanHelloFiles` | Program.cs:29-64 | Running the scan loop over those three files for "Hello" ends with three files scanned, two found, and the found list `a.txt`, `c.txt`. |

## Left out

- Console prompts, the progress lines, the per-file status strings and the summary (Program.cs:8-16, 35-38, 44, 57, 60-83). These are console I/O. `SearchStringInFiles` returns the final counters and list instead of printing them.
- The `explorer.exe` reveal call for each found file (Program.cs:74). It is a call into the operating system shell.
- `Directory.Exists`, `Directory.EnumerateFiles` and the optional pre-count (Program.cs:18, 33, 40). They are library filesystem traversal. The enumerated files are an input sequence. An exception thrown by the enumeration itself sits outside the per-file `try`, so it would end the scan; that is not modelled.
- `FileStream` and `StreamReader` internals: byte-order-mark detection, decoding, and line splitting by `ReadLine`. Chunks and lines are given inputs. Each read is assumed to return between 1 and 1024 bytes, which is what a read into a 1024-byte buffer can return before end of file.
- The runtime's culture-independent upper-case mapping behind `OrdinalIgnoreCase`. It is the `Fold` parameter. `AsciiUpper` is one instance of it, used only in `HelloFilesClassified`, `HelloScenario` and `ScanHelloFiles`. A model `string` is a sequence of Unicode characters, while .NET strings are UTF-16 code units; with `Fold` left abstract and lines decoded from well-formed text, no result of the model depends on that difference.
- The `catch` around the two checks in the scan loop (Program.cs:55-58). Both checks catch their own exceptions, so it never runs.
- A `null` search term, which `Console.ReadLine` can return at end of input. It would make `Contains` throw, and `FileContainsString` would then return false. The model's term is always a string.
- `IsValidUtf8` with `length` greater than the array: the only caller passes the count a read returned, which never exceeds the buffer. This is the method's one precondition. 32-bit overflow of `i + 3` cannot happen for such lengths, so it is not modelled.
