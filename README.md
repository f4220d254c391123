# Splitting a Markdown question list into one file per section

The program reads a Markdown document of interview questions and cuts it at every `##`.
It drops the text before the first `##` and writes each remaining section to its own file
in the folder `many_books`. A file is named after the section's first line. That line is
made into a file name by replacing spaces with `_` and deleting every run of digits
followed by a period, then every question mark. The file holds `## ` followed by the
section without its surrounding whitespace.

This project models that behaviour in Dafny and proves what it guarantees. It has four
modules:

- `StringSplit` models JavaScript's `String.prototype.split` and `Array.prototype.join`
  for a non-empty literal separator. The predicate `IsSplitOf` characterises a split
  independently: joining the pieces gives the input back, every piece but the last stops
  at the leftmost match, and the last piece holds no match. `Split` is proved to be the
  only list of pieces with that property.
- `StringTrim` models `String.prototype.trim` over the ECMAScript WhiteSpace and
  LineTerminator characters. `Trim(s)` is proved to be the only trimmed text that
  whitespace surrounds in `s`.
- `Sanitizer` models `replaceSpacesDigitsAndQuestionMark` as its three replacements, in
  the source's order. The regular expression `\d+\.` is modelled by a left-to-right scan
  that deletes each leftmost greedy match and resumes after it. The predicate
  `IsMatchCut` characterises that result independently: the input is cut into kept text
  and leftmost greedy matches, and the result is the kept text of every such cut.
- `Splitter` holds the document-level functions (`Sections`, `Title`, `FileName`,
  `FileFor`, `Files`) and the method `SplitDocument`. That method is the `forEach` loop,
  proved equal to `Files`. The properties of the output are lemmas about these functions.

Two consequences of the code are worth stating plainly:

- The title `3. What is Rust?` gives the file `many_books/_What_is_Rust.md`. The space
  after `3.` becomes `_` before `3.` is deleted, so the name keeps a leading underscore
  (`Sanitizer.SanitizeOrdinalTitle`).
- The content is `'## ' + section`: the marker, a space, then the trimmed section
  (`Splitter.FileContent`).

## Model

| member | source | states |
|---|---|---|
| StringSplit.Split | index.js:17 | `split` never returns an empty list; what its pieces are is stated by `SplitIsSplitOf`, `SplitUnique`, `JoinSplit` and `SplitCount` below |
| StringSplit.SplitIsSplitOf | index.js:17 | `data.split('##')` returns a list of pieces that join back to the input; every piece but the last ends at the leftmost match and the last piece holds no match |
| StringSplit.SplitUnique | index.js:17 | any list of pieces with those properties is exactly what `split` returns, so the split is characterised independently of how it is computed |
| StringSplit.JoinSplit | index.js:17 | joining the pieces with the separator gives the input back |
| StringSplit.SplitPiecesStopAtFirstMatch | index.js:17 | every piece but the last is followed by the leftmost occurrence of the separator |
| StringSplit.SplitLastPieceIsFree | index.js:17 | the last piece holds no occurrence of the separator |
| StringSplit.SplitPiecesAreFree | index.js:17 | no piece holds the separator |
| StringSplit.SplitCount | index.js:17 | there is one more piece than there are left-to-right, non-overlapping occurrences |
| StringSplit.OccurrencesZero | index.js:17 | the occurrence count is zero exactly when the separator does not occur |
| StringSplit.FirstPiece | index.js:17 | the first piece is the input up to its first match, or all of the input when there is none |
| StringSplit.NoMatchSplit | index.js:17 | a text without the separator splits into itself alone |
| StringSplit.SplitAfterLeadingSeparator | index.js:17 | the separator followed by text without it splits into an empty piece and that text |
| Splitter.Preamble | index.js:17-20 | the piece that `slice(1)` drops; `PreambleIsTextBeforeMarker` states what it is |
| Splitter.Sections | index.js:17-20 | the pieces after the first, in order; `SectionsAreMarkerFree`, `SectionsRebuildDocument` and `NoMarkerNoFiles` state their count, content and order |
| Splitter.PreambleIsTextBeforeMarker | index.js:17-20 | the piece that `slice(1)` drops is the text before the first `##`, or the whole document when there is none |
| Splitter.SectionsAreMarkerFree | index.js:17-20 | there are as many sections as occurrences of `##`, and no section holds `##` |
| Splitter.SectionsRebuildDocument | index.js:17-20 | the dropped text and the sections, joined with `##` in order, give the document back |
| Splitter.NoMarkerNoFiles | index.js:17-20 | one file per occurrence of `##`, and no file at all exactly when the document has no `##` |
| Splitter.FileFor | index.js:21-26 | the file written for one section; `FileContent`, `FilePath`, `SameTrimSameFile` and `ResplitWrittenFile` state its path and content |
| Splitter.Files | index.js:17-26 | the files written for a document, the specification `SplitDocument` is proved against; `FilesOfAt` and `NoMarkerNoFiles` state their number and order |
| Splitter.FilesOf | index.js:20 | one output file per section |
| Splitter.FilesOfAt | index.js:20-26 | file number `i` is the one written for section number `i`, so the order of the sections is kept |
| Splitter.SplitDocument | index.js:17-26 | the loop emits exactly the files that `Files` specifies, one per occurrence of `##` |
| StringTrim.Trim | index.js:21 | the trimmed section starts and ends with a non-whitespace character and is surrounded by whitespace only in the input |
| StringTrim.TrimStartIsSuffix | index.js:21 | trimming the start drops only leading whitespace |
| StringTrim.TrimEndIsPrefix | index.js:21 | trimming the end drops only trailing whitespace |
| StringTrim.TrimUnique | index.js:21 | any trimmed text surrounded by whitespace only in the input is the result of `trim` |
| StringTrim.TrimIdempotent | index.js:21 | trimming twice is trimming once |
| StringTrim.TrimAfterWhitespace | index.js:21 | whitespace in front of a trimmed text is all that trimming removes |
| StringTrim.SurroundedChars | index.js:21 | every character of the trimmed text is a character of the input |
| Splitter.TrimKeepsSeparatorOut | index.js:21 | trimming a section without `##` cannot create `##` |
| Splitter.Title | index.js:22-23 | the first line of the trimmed section, trimmed; `TitleIsOneTrimmedLine` and `TitleFromFirstLine` state what it is |
| Splitter.FileName | index.js:23 | the sanitized title; `FileNameIsClean` states what it holds |
| Splitter.TitleIsOneTrimmedLine | index.js:22-23 | the title holds no line break and is trimmed |
| Splitter.TitleFromFirstLine | index.js:22-23 | the title is the trimmed section up to its first line break, trimmed |
| Splitter.FileNameIsClean | index.js:23 | the file name holds no space, no question mark and no line break |
| Splitter.FilePath | index.js:23-24 | the path is `many_books/` (the folder of line 4), then the sanitized title, then `.md`, and that name holds no space, question mark or line break |
| Splitter.FileContent | index.js:21-26 | the content is `## ` followed by the section without its surrounding whitespace, that text is trimmed, whitespace surrounds it in the section, and it holds no `##` |
| Splitter.SameTrimSameFile | index.js:21-26 | sections that trim to the same text give the same file |
| Splitter.ContentIsOneSection | index.js:26 | the written content, split at `##` again, has one section: the trimmed section after the space of `## ` |
| Splitter.ResplitWrittenFile | index.js:26 | splitting a written file again yields exactly that file, with the same name and the same content |
| Sanitizer.ReplaceSpaces | index.js:37 | same length, no space left, each space becomes `_` and every other character is kept in place |
| Sanitizer.DigitRun | index.js:37 | the run of `\d` at the start of a text is as long as possible |
| Sanitizer.DeleteDigitPeriodRuns | index.js:37 | `replace(/\d+\./g, '')`; `DeleteDigitPeriodRunsCutsMatches` and `MatchCutDeletes` characterise its result completely |
| Sanitizer.DeleteDigitPeriodRunsCutsMatches | index.js:37 | the result is the kept text of a cut of the input into kept text and matches of `\d+\.`, each match the leftmost after the previous one and taking all the digits before its period, with no match left after the last |
| Sanitizer.MatchCutDeletes | index.js:37 | for every such cut of the input, its kept text is the result, so only leftmost greedy matches are deleted and everything else is kept in order |
| Sanitizer.DeleteKeepsCleanPrefix | index.js:37 | text in which no match can start stays in front of the result for whatever follows it |
| Sanitizer.DeleteLeadingMatch | index.js:37 | a match at the front is deleted and the scan resumes after it |
| Sanitizer.PeriodAfterLetterExample | index.js:37 | `x.1.` becomes `x.`: a period after a letter is not part of a match |
| Sanitizer.TextAfterMatchExample | index.js:37 | `1.2` becomes `2`: the text after a match stays |
| Sanitizer.DeleteDigitPeriodRunsSpec | index.js:37 | deleting the `\d+\.` matches only leaves characters out, keeps the order, and leaves no digit directly before a period |
| Sanitizer.DeleteDigitPeriodRunsKeepsOtherChars | index.js:37 | every character other than a digit or a period is kept as often as it occurs |
| Sanitizer.DeleteDigitPeriodRunsKeepsCleanText | index.js:37 | text with no digit directly before a period is left unchanged |
| Sanitizer.DeleteDigitPeriodRunsIdempotent | index.js:37 | the second replacement applied twice is applied once |
| Sanitizer.DeleteQuestionMarks | index.js:37 | no question mark is left |
| Sanitizer.DeleteQuestionMarksIsSubsequence | index.js:37 | deleting question marks only leaves characters out, in order |
| Sanitizer.DeleteQuestionMarksKeepsOtherChars | index.js:37 | every character other than `?` is kept as often as it occurs |
| Sanitizer.CountUnderReplace | index.js:37 | replacing spaces keeps every character other than space and `_` as often as it occurs |
| Sanitizer.ReplaceSpacesAppend | index.js:37 | replacing spaces distributes over concatenation |
| Sanitizer.DeleteQuestionMarksAppend | index.js:37 | deleting question marks distributes over concatenation |
| Sanitizer.Sanitize | index.js:36-38 | the sanitized name holds no space and no question mark |
| Sanitizer.SanitizeIsSubsequence | index.js:36-38 | after the spaces are replaced, the other two steps only leave characters out, in order |
| Sanitizer.SanitizeKeepsPlainChars | index.js:36-38 | every character other than digits, `.`, ` `, `?` and `_` is kept as often as it occurs |
| Sanitizer.SanitizeDigitFree | index.js:36-38 | text without digits loses nothing to the digit-and-period step |
| Sanitizer.SanitizeOrdinalPrefix | index.js:36-38 | a leading ordinal `N. ` becomes a single leading `_` |
| Sanitizer.SanitizeQuestion | index.js:36-38 | words without digits or `?`, followed by `?`, come out with their spaces replaced and the `?` gone |
| Sanitizer.SanitizeNumberedQuestion | index.js:36-38 | a title `N. words?` becomes `_` followed by the words with their spaces replaced |
| Sanitizer.SanitizeOrdinalTitle | index.js:36-38 | `3. What is Rust?` becomes `_What_is_Rust` |
| Sanitizer.QuestionMarkExample | index.js:37 | deleting the question marks of `1?.` gives `1.` |
| Sanitizer.PeriodExample | index.js:37 | `1.` is deleted entirely by the digit-and-period step |
| Sanitizer.SanitizeNotIdempotent | index.js:36-38 | sanitizing is not idempotent: `1?.` becomes `1.`, which becomes the empty name |

## Left out

- Creating the output folder (lines 7-9) is a file-system effect and is not modelled.
- Reading the document (line 11) is not modelled: `SplitDocument` takes the decoded text as its parameter. The read-error branch (lines 12-15), which only logs and returns, is left out with it.
- Writing the files (lines 26-32) is not modelled: the model produces the list of (path, content) pairs in the order the writes are issued. It does not model asynchronous completion order, the error callback, the success log line, or that a later write to the same path replaces an earlier one (two sections with the same title leave one file on disk).
- Strings are sequences of Unicode scalar values, whereas JavaScript strings are UTF-16 code units. Every character the program matches (`#`, `\n`, space, digits, `.`, `?` and the whitespace set of `trim`) is a single code unit, so the split, the trim and the replacements act the same on both.
- Regular expressions in general are not modelled. Only the three fixed patterns of line 37 are, each by a function written for it.
