/**
  The document splitter: the text of the question list is cut at every `##`,
  the text before the first `##` is dropped, and each remaining section becomes
  one output file under `many_books/`, named after the section's sanitized first
  line and holding `## ` followed by the trimmed section.
*/
module Splitter {
  import opened StringSplit
  import opened StringTrim
  import opened Sanitizer

  /** The folder every output file is written to. */
  const OutputFolder: string := "many_books"

  /** The separator the document is split on. */
  const Marker: string := "##"

  /** What every written file starts with. */
  const Header: string := "## "

  /** The line separator a section's first line is cut at. */
  const NewLine: string := "\n"

  /** A file the splitter writes: where, and what. */
  datatype OutputFile = OutputFile(path: string, content: string)

  /** The text before the first `##`, which is not written anywhere. */
  function Preamble(data: string): string
  {
    Split(data, Marker)[0]
  }

  /** `data.split('##').slice(1)`: the sections, in document order. */
  function Sections(data: string): seq<string>
  {
    Split(data, Marker)[1..]
  }

  /** `lines[0].trim()`, where `lines` is the trimmed section split at line breaks. */
  function Title(section: string): string
  {
    Trim(Split(Trim(section), NewLine)[0])
  }

  /** `replaceSpacesDigitsAndQuestionMark` of the title. */
  function FileName(section: string): string
  {
    Sanitize(Title(section))
  }

  /** The file written for one section (lines 21-26 of the loop body). */
  function FileFor(section: string): OutputFile
  {
    OutputFile(OutputFolder + "/" + FileName(section) + ".md", Header + Trim(section))
  }

  /** The files written for a list of sections, one per section, in section order. */
  function FilesOf(sections: seq<string>): (fs: seq<OutputFile>)
    ensures |fs| == |sections|
  {
    if sections == [] then []
    else FilesOf(sections[..|sections| - 1]) + [FileFor(sections[|sections| - 1])]
  }

  /** The file at position `i` is the one written for section `i`. */
  lemma {:induction false} FilesOfAt(sections: seq<string>, i: int)
    requires 0 <= i < |sections|
    ensures FilesOf(sections)[i] == FileFor(sections[i])
  {
    if i < |sections| - 1 {
      FilesOfAt(sections[..|sections| - 1], i);
    }
  }

  /** The files written for a whole document. */
  function Files(data: string): seq<OutputFile>
  {
    FilesOf(Sections(data))
  }

  /** The `forEach` over the sections: for each one, trim it, take its first line,
      sanitize that into a name and emit the file. */
  method SplitDocument(data: string) returns (files: seq<OutputFile>)
    ensures files == Files(data)
    ensures |files| == Occurrences(data, Marker)
  {
    var sections := Split(data, Marker);
    var rest := sections[1..];
    files := [];
    for index := 0 to |rest|
      invariant files == FilesOf(rest[..index])
    {
      var section := Trim(rest[index]);
      var lines := Split(section, NewLine);
      var firstLine := Sanitize(Trim(lines[0]));
      var outputFilename := OutputFolder + "/" + firstLine + ".md";
      assert rest[..index + 1][..index] == rest[..index];
      files := files + [OutputFile(outputFilename, Header + section)];
    }
    assert rest[..|rest|] == rest;
    SplitCount(data, Marker);
  }

  // ---------------------------------------------------------------------------
  // Properties of the split into sections

  /** The preamble is the document up to its first `##` (all of it when there is none). */
  lemma PreambleIsTextBeforeMarker(data: string)
    ensures var p := Preamble(data);
      |p| <= |data| && p == data[..|p|] && !Contains(p, Marker) &&
      (|p| < |data| ==> OccursAt(data, Marker, |p|))
  {
    FirstPiece(data, Marker);
  }

  /** There are as many sections as occurrences of `##`, and none of them holds `##`. */
  lemma SectionsAreMarkerFree(data: string)
    ensures |Sections(data)| == Occurrences(data, Marker)
    ensures forall i :: 0 <= i < |Sections(data)| ==> !Contains(Sections(data)[i], Marker)
  {
    SplitCount(data, Marker);
    SplitPiecesAreFree(data, Marker);
    var ps := Split(data, Marker);
    forall i | 0 <= i < |ps| - 1
      ensures !Contains(ps[1..][i], Marker)
    {
      assert ps[1..][i] == ps[i + 1];
    }
  }

  /** The title is trimmed and holds no line break. */
  lemma TitleIsOneTrimmedLine(section: string)
    ensures '\n' !in Title(section) && IsTrimmed(Title(section))
  {
    var first := Split(Trim(section), NewLine)[0];
    FirstPiece(Trim(section), NewLine);
    ContainsChar(first, '\n');
    SurroundedChars(first, Trim(first));
  }

  /** The file name holds no space, no question mark and no line break. */
  lemma FileNameIsClean(section: string)
    ensures var name := FileName(section);
      ' ' !in name && '?' !in name && '\n' !in name
  {
    TitleIsOneTrimmedLine(section);
    SanitizeKeepsPlainChars(Title(section), '\n');
    assert multiset(Title(section))['\n'] == 0;
  }

  /** Putting the preamble and the sections back together with `##` gives the document:
      nothing is lost and the order is kept. */
  lemma SectionsRebuildDocument(data: string)
    ensures Join([Preamble(data)] + Sections(data), Marker) == data
  {
    var ps := Split(data, Marker);
    assert [ps[0]] + ps[1..] == ps;
    JoinSplit(data, Marker);
  }

  /** A document without `##` yields no files, and one with `##` yields at least one. */
  lemma NoMarkerNoFiles(data: string)
    ensures |Files(data)| == Occurrences(data, Marker)
    ensures Files(data) == [] <==> !Contains(data, Marker)
  {
    SplitCount(data, Marker);
    OccurrencesZero(data, Marker);
  }

  // ---------------------------------------------------------------------------
  // Properties of one written file

  /** The title comes from the first line of the trimmed section: that line is the
      section up to its first line break, and the title is that line trimmed. */
  lemma TitleFromFirstLine(section: string)
    ensures var s := Trim(section);
      var line := Split(s, NewLine)[0];
      |line| <= |s| && line == s[..|line|] && '\n' !in line &&
      (|line| < |s| ==> s[|line|] == '\n') &&
      Title(section) == Trim(line)
  {
    var s := Trim(section);
    var line := Split(s, NewLine)[0];
    FirstPiece(s, NewLine);
    ContainsChar(line, '\n');
    if |line| < |s| {
      assert s[|line|..|line| + 1] == NewLine;
    }
  }

  /** Trimming a text without `sep` leaves a text without `sep`. */
  lemma TrimKeepsSeparatorOut(s: string, sep: string)
    requires !Contains(s, sep)
    ensures !Contains(Trim(s), sep)
  {
    var t := TrimStart(s);
    assert !Contains(t, sep) by {
      TrimStartIsSuffix(s);
      assert s[|s| - |t|..|s|] == t;
      ContainsInSlice(s, |s| - |t|, |s|, sep);
    }
    var r := TrimEnd(t);
    assert !Contains(r, sep) by {
      TrimEndIsPrefix(t);
      assert t[0..|r|] == r;
      ContainsInSlice(t, 0, |r|, sep);
    }
    assert Trim(s) == r;
  }

  /** The content is `## ` followed by the section without its surrounding whitespace,
      and that text holds no `##`. */
  lemma FileContent(data: string, i: int)
    requires 0 <= i < |Sections(data)|
    ensures var t := Trim(Sections(data)[i]);
      Files(data)[i].content == Header + t &&
      IsTrimmed(t) && Surrounds(Sections(data)[i], t) && !Contains(t, Marker)
  {
    FilesOfAt(Sections(data), i);
    SectionsAreMarkerFree(data);
    TrimKeepsSeparatorOut(Sections(data)[i], Marker);
  }

  /** The path is `many_books/<name>.md`, the name being the sanitized title. */
  lemma FilePath(data: string, i: int)
    requires 0 <= i < |Sections(data)|
    ensures var name := Sanitize(Title(Sections(data)[i]));
      Files(data)[i].path == OutputFolder + "/" + name + ".md" &&
      ' ' !in name && '?' !in name && '\n' !in name
  {
    FilesOfAt(Sections(data), i);
    FileNameIsClean(Sections(data)[i]);
  }

  /** What is written for a section depends only on the section without its surrounding
      whitespace. */
  lemma SameTrimSameFile(a: string, b: string)
    requires Trim(a) == Trim(b)
    ensures FileFor(a) == FileFor(b)
  {
  }

  /** The text written for a section without `##` splits into one section: the trimmed
      section behind the space of `## `. */
  lemma ContentIsOneSection(section: string)
    requires !Contains(section, Marker)
    ensures Sections(Header + Trim(section)) == [" " + Trim(section)]
  {
    var t := Trim(section);
    assert Header + t == Marker + (" " + t);
    TrimKeepsSeparatorOut(section, Marker);
    ConsHasNoMatch(' ', t, Marker);
    SplitAfterLeadingSeparator(" " + t, Marker);
  }

  /** Splitting a written file again yields exactly that file: its one section is the
      text after `##`, which trims back to the same section and the same first line. */
  lemma ResplitWrittenFile(section: string)
    requires !Contains(section, Marker)
    ensures Files(FileFor(section).content) == [FileFor(section)]
  {
    var t := Trim(section);
    ContentIsOneSection(section);
    TrimAfterWhitespace(" ", t);
    SameTrimSameFile(" " + t, section);
    assert [" " + t][..0] == [];
  }
}
