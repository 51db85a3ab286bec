/**
 * The viewer's session state: the list of ingested files, the per-file
 * "recently copied" flags and the "all copied" flag, with the handlers that
 * change them. Reading files and writing the clipboard are done by the host;
 * their outcomes are given to the handlers as inputs. The 2-second timers
 * that clear the flags become explicit reset methods.
 */
module Viewer {
  import opened Wrappers
  import opened FileFormat
  import opened FileList
  import opened Clipboard

  class FileViewer {
    /** `files`: the ingested records, in the order they were dropped. */
    var files: seq<FileRecord>
    /** `copiedStates`: file name to "recently copied". */
    var copied: map<string, bool>
    /** `allCopied`. */
    var allCopied: bool

    /** Every record carries the format of its own name. */
    ghost predicate Valid()
      reads this
    {
      Classified(files)
    }

    /** The initial state: no files, no flags set. */
    constructor ()
      ensures Valid()
      ensures files == [] && copied == map[] && !allCopied
    {
      files := [];
      copied := map[];
      allCopied := false;
    }

    /**
     * The own flag the copy handlers set for `name`: true after a successful
     * copy of a file with that name and until its reset.
     */
    function ShowsCopied(name: string): bool
      reads this
    {
      name in copied && copied[name]
    }

    /**
     * `handleDrop`: read the dropped files one after another, collect the
     * readable ones with their formats, then append them all to the list.
     * A file whose read fails, by a thrown error or a reader error event, is
     * skipped; this is the corrected ingestion. When no read errors, the
     * appended records are exactly what the loop as written collects.
     */
    method Drop(dropped: seq<Dropped>)
      requires Valid()
      modifies this
      ensures Valid()
      ensures files == old(files) + Ingest(dropped)
      ensures old(files) <= files
      ensures |files| == |old(files)| + LoadedCount(dropped)
      ensures copied == old(copied) && allCopied == old(allCopied)
      ensures (forall i :: 0 <= i < |dropped| ==> !dropped[i].outcome.Errored?) ==>
                IngestAsWritten(dropped) == Some(files[|old(files)|..])
    {
      var fileContents: seq<FileRecord> := [];
      var i := 0;
      while i < |dropped|
        invariant 0 <= i <= |dropped|
        invariant fileContents == Ingest(dropped[..i])
        invariant unchanged(this)
      {
        var file := dropped[i];
        match file.outcome {
          case Loaded(content) =>
            var format := GetFileFormat(file.name);
            fileContents := fileContents + [FileRecord(file.name, content, format)];
          case Rejected =>
          case Errored =>
        }
        assert fileContents == Ingest(dropped[..i]) + Contribution(file);
        IngestStep(dropped, i);
        i := i + 1;
      }
      assert dropped[..i] == dropped;
      IngestClassified(dropped);
      ClassifiedAppend(files, fileContents);
      IngestLength(dropped);
      files := files + fileContents;
      assert files[|old(files)|..] == fileContents;
      if forall k :: 0 <= k < |dropped| ==> !dropped[k].outcome.Errored? {
        IngestAsWrittenAgrees(dropped);
      }
    }

    /** `removeFile`: drop every record with this name, keep the rest in order. */
    method RemoveFile(fileName: string)
      requires Valid()
      modifies this
      ensures Valid()
      ensures files == RemoveNamed(old(files), fileName)
      ensures forall f :: f in files <==> f in old(files) && f.name != fileName
      ensures copied == old(copied) && allCopied == old(allCopied)
    {
      RemoveNamedClassified(files, fileName);
      files := RemoveNamed(files, fileName);
    }

    /** The "Clear all" button: empty the list; the copy flags stay as they are. */
    method ClearAll()
      modifies this
      ensures Valid()
      ensures files == []
      ensures copied == old(copied) && allCopied == old(allCopied)
    {
      files := [];
    }

    /**
     * `handleCopy`: build the fenced block and hand it to the clipboard,
     * whose success is `written`. On success a non-empty file name gets its
     * flag set; an empty (falsy) one sets the "all copied" flag instead.
     */
    method Copy(content: string, format: string, fileName: string, written: bool) returns (payload: string)
      modifies this
      ensures payload == Fence(format, content)
      ensures files == old(files)
      ensures copied == (if written && fileName != "" then old(copied)[fileName := true] else old(copied))
      ensures allCopied == (old(allCopied) || (written && fileName == ""))
      ensures forall k :: k != fileName ==> (k in copied <==> k in old(copied))
      ensures forall k :: k != fileName && k in copied ==> copied[k] == old(copied)[k]
      ensures written && fileName != "" ==> ShowsCopied(fileName)
    {
      payload := Fence(format, content);
      if written {
        if fileName != "" {
          copied := copied[fileName := true];
        } else {
          allCopied := true;
        }
      }
    }

    /**
     * The copy button of the i-th file: its normalised content, fenced with
     * its format. Since the record is classified, the block reads back as
     * exactly that format and content.
     */
    method CopyFile<J>(i: nat, parse: string -> Option<J>, stringify: J -> string, written: bool) returns (payload: string)
      requires Valid()
      requires i < |files|
      modifies this
      ensures files == old(files)
      ensures payload == SingleCopyPayload(files[i], parse, stringify)
      ensures ParseFence(payload) == Some((files[i].format, Normalized(files[i], parse, stringify)))
      ensures Valid()
      ensures copied == (if written && files[i].name != "" then old(copied)[files[i].name := true] else old(copied))
      ensures allCopied == (old(allCopied) || (written && files[i].name == ""))
    {
      var file := files[i];
      SingleCopyRoundTrip(file, parse, stringify);
      payload := Copy(Normalized(file, parse, stringify), file.format, file.name, written);
    }

    /** The timer after a single copy: the file's flag goes back to false. */
    method ResetCopied(fileName: string)
      modifies this
      ensures files == old(files) && allCopied == old(allCopied)
      ensures copied == old(copied)[fileName := false]
      ensures !ShowsCopied(fileName)
    {
      copied := copied[fileName := false];
    }

    /** `copyAllFiles`: every file's segment, joined by line feeds, to the clipboard at once. */
    method CopyAll<J>(parse: string -> Option<J>, stringify: J -> string, written: bool) returns (payload: string)
      modifies this
      ensures payload == CopyAllPayload(files, parse, stringify)
      ensures files == old(files) && copied == old(copied)
      ensures allCopied == (old(allCopied) || written)
    {
      payload := CopyAllPayload(files, parse, stringify);
      if written {
        allCopied := true;
      }
    }

    /** The timer after copying everything: the "all copied" flag goes back to false. */
    method ResetAllCopied()
      modifies this
      ensures files == old(files) && copied == old(copied)
      ensures !allCopied
    {
      allCopied := false;
    }
  }
}
