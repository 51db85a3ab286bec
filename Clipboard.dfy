/**
 * The clipboard payloads: a single file's fenced code block (the info
 * string is the file's format), and the copy-all text made of one
 * "name, blank line, fenced block" segment per file, joined by "\n".
 */
module Clipboard {
  import opened Wrappers
  import opened Strings
  import opened FileFormat
  import opened Normalize
  import opened FileList

  /** The fence delimiter: three backticks. */
  const Ticks: string := "```"

  /** `` `\`\`\`${format}\n${content}\n\`\`\`` ``: an opening fence with the format as info string, the content, a closing fence. */
  function Fence(format: string, content: string): string
  {
    Ticks + format + "\n" + content + "\n" + Ticks
  }

  /**
   * A reference reader for a fenced block: the info string runs from the
   * opening backticks to the first line feed, and the last line is the
   * closing fence; the content is what lies between.
   */
  function ParseFence(p: string): Option<(string, string)>
  {
    if |p| < 8 || p[..3] != Ticks || p[|p| - 4..] != "\n" + Ticks then None
    else
      var k := 3 + FirstIndex(p[3..], '\n');
      if k + 1 <= |p| - 4 then Some((p[3..k], p[k + 1..|p| - 4])) else None
  }

  /** The first line feed after a line-feed-free prefix is right after that prefix. */
  lemma FirstIndexAfterPrefix(a: string, b: string)
    requires '\n' !in a
    ensures FirstIndex(a + "\n" + b, '\n') == |a|
  {
    var s := a + "\n" + b;
    var k := FirstIndex(s, '\n');
    assert s[|a|] == '\n';
  }

  /** A block built from a format without line feeds reads back as that format and content. */
  lemma FenceRoundTrip(format: string, content: string)
    requires '\n' !in format
    ensures ParseFence(Fence(format, content)) == Some((format, content))
  {
    var p := Fence(format, content);
    assert p[..3] == Ticks;
    assert p[|p| - 4..] == "\n" + Ticks;
    assert p[3..] == format + "\n" + (content + "\n" + Ticks);
    FirstIndexAfterPrefix(format, content + "\n" + Ticks);
    var k := 3 + |format|;
    assert p[3..k] == format;
    assert p[k + 1..|p| - 4] == content;
  }

  /** Whatever the reader accepts is exactly the block of its info string and content. */
  lemma ParseFenceSound(p: string)
    requires ParseFence(p).Some?
    ensures '\n' !in ParseFence(p).value.0
    ensures Fence(ParseFence(p).value.0, ParseFence(p).value.1) == p
  {
    var k := 3 + FirstIndex(p[3..], '\n');
    var info, body := p[3..k], p[k + 1..|p| - 4];
    assert forall j :: 0 <= j < |info| ==> info[j] == p[3..][j];
    assert p[k] == '\n';
    assert p == p[..3] + info + [p[k]] + body + p[|p| - 4..];
  }

  /** One segment of the copy-all text: the name, a blank line, the fenced block, a line feed. */
  function Segment(name: string, format: string, body: string): string
  {
    name + "\n\n" + Ticks + format + "\n" + body + "\n" + Ticks + "\n"
  }

  /** A segment is the header line, a blank line and the same fenced block a single copy writes. */
  lemma SegmentIsHeaderAndFence(name: string, format: string, body: string)
    ensures Segment(name, format, body) == name + "\n\n" + Fence(format, body) + "\n"
    ensures |Segment(name, format, body)| == |name| + |format| + |body| + 11
  {
  }

  /** A segment begins with the file name. */
  lemma SegmentStartsWithName(name: string, format: string, body: string)
    ensures |name| <= |Segment(name, format, body)| && Segment(name, format, body)[..|name|] == name
  {
  }

  /** The content a file is shown and copied with. */
  function Normalized<J>(f: FileRecord, parse: string -> Option<J>, stringify: J -> string): string
  {
    FormatContent(parse, stringify, f.content)
  }

  /** What the per-file copy button writes: its normalised content fenced with its format. */
  function SingleCopyPayload<J>(f: FileRecord, parse: string -> Option<J>, stringify: J -> string): string
  {
    Fence(f.format, Normalized(f, parse, stringify))
  }

  /** The segment of one file. */
  function FileSegment<J>(f: FileRecord, parse: string -> Option<J>, stringify: J -> string): string
  {
    Segment(f.name, f.format, Normalized(f, parse, stringify))
  }

  /** `files.map(...)`: one segment per file, in list order. */
  function Segments<J>(files: seq<FileRecord>, parse: string -> Option<J>, stringify: J -> string): (segs: seq<string>)
    ensures |segs| == |files|
    ensures forall i :: 0 <= i < |files| ==> segs[i] == FileSegment(files[i], parse, stringify)
  {
    seq(|files|, i requires 0 <= i < |files| => FileSegment(files[i], parse, stringify))
  }

  /** `files.map(...).join('\n')`: the copy-all text. */
  function CopyAllPayload<J>(files: seq<FileRecord>, parse: string -> Option<J>, stringify: J -> string): string
  {
    Join("\n", Segments(files, parse, stringify))
  }

  /** A file's copy-all segment wraps exactly what its own copy button writes. */
  lemma FileSegmentWrapsSingleCopy<J>(f: FileRecord, parse: string -> Option<J>, stringify: J -> string)
    ensures FileSegment(f, parse, stringify) == f.name + "\n\n" + SingleCopyPayload(f, parse, stringify) + "\n"
  {
    SegmentIsHeaderAndFence(f.name, f.format, Normalized(f, parse, stringify));
  }

  /** The single-copy payload reads back as the file's format and normalised content. */
  lemma SingleCopyRoundTrip<J>(f: FileRecord, parse: string -> Option<J>, stringify: J -> string)
    requires f.format == GetFileFormat(f.name)
    ensures ParseFence(SingleCopyPayload(f, parse, stringify)) == Some((f.format, Normalized(f, parse, stringify)))
  {
    FormatNamesHaveNoLineFeed(f.name);
    FenceRoundTrip(f.format, Normalized(f, parse, stringify));
  }

  /** No format the classifier returns holds a line feed, so it fits on the opening fence line. */
  lemma FormatNamesHaveNoLineFeed(name: string)
    ensures '\n' !in GetFileFormat(name)
  {
    TableValuesSingleLine();
    var ext := Extension(name);
    if ext in FormatTable {
      assert GetFileFormat(name) == FormatTable[ext];
    } else {
      assert GetFileFormat(name) == Plaintext;
    }
  }

  /** Copy-all of an empty list is the empty string. */
  lemma CopyAllEmpty<J>(parse: string -> Option<J>, stringify: J -> string)
    ensures CopyAllPayload([], parse, stringify) == ""
  {
  }

  /** Copy-all of one more file appends a line feed and that file's segment. */
  lemma CopyAllSnoc<J>(files: seq<FileRecord>, f: FileRecord, parse: string -> Option<J>, stringify: J -> string)
    requires |files| > 0
    ensures CopyAllPayload(files + [f], parse, stringify)
         == CopyAllPayload(files, parse, stringify) + "\n" + FileSegment(f, parse, stringify)
  {
    var segs := Segments(files, parse, stringify);
    assert Segments(files + [f], parse, stringify) == segs + [FileSegment(f, parse, stringify)];
    JoinSnoc("\n", segs, FileSegment(f, parse, stringify));
  }

  /** The i-th file's segment sits at offset `PieceOffset` of the copy-all text. */
  lemma CopyAllSegmentAt<J>(files: seq<FileRecord>, i: nat, parse: string -> Option<J>, stringify: J -> string)
    requires i < |files|
    ensures var p, segs := CopyAllPayload(files, parse, stringify), Segments(files, parse, stringify);
      var o := PieceOffset("\n", segs, i);
      o + |segs[i]| <= |p| && p[o..o + |segs[i]|] == FileSegment(files[i], parse, stringify)
  {
    JoinPieceAt("\n", Segments(files, parse, stringify), i);
  }

  /**
   * The i-th file's name begins its segment, and the next file's segment
   * begins one line feed after it ends: the segments appear in list order.
   */
  lemma CopyAllNameAt<J>(files: seq<FileRecord>, i: nat, parse: string -> Option<J>, stringify: J -> string)
    requires i < |files|
    ensures var p, segs := CopyAllPayload(files, parse, stringify), Segments(files, parse, stringify);
      var o := PieceOffset("\n", segs, i);
      o + |files[i].name| <= |p| && p[o..o + |files[i].name|] == files[i].name &&
      (i + 1 < |files| ==> PieceOffset("\n", segs, i + 1) == o + |segs[i]| + 1)
  {
    var p, segs := CopyAllPayload(files, parse, stringify), Segments(files, parse, stringify);
    var f := files[i];
    var o := PieceOffset("\n", segs, i);
    CopyAllSegmentAt(files, i, parse, stringify);
    assert segs[i] == Segment(f.name, f.format, Normalized(f, parse, stringify));
    SegmentStartsWithName(f.name, f.format, Normalized(f, parse, stringify));
    SliceOfSlice(p, o, segs[i], f.name);
  }

  /** The copy-all text is as long as its segments plus one line feed between each pair. */
  lemma CopyAllLength<J>(files: seq<FileRecord>, parse: string -> Option<J>, stringify: J -> string)
    requires |files| > 0
    ensures |CopyAllPayload(files, parse, stringify)| == TotalLength(Segments(files, parse, stringify)) + |files| - 1
  {
    JoinLength("\n", Segments(files, parse, stringify));
  }

  /** A lone file gives its segment alone, with no separator. */
  lemma CopyAllSingle<J>(f: FileRecord, parse: string -> Option<J>, stringify: J -> string)
    ensures CopyAllPayload([f], parse, stringify) == f.name + "\n\n" + SingleCopyPayload(f, parse, stringify) + "\n"
  {
    FileSegmentWrapsSingleCopy(f, parse, stringify);
  }
}
