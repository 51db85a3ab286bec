/**
 * The session's file list: records built from dropped files, the ingestion
 * of one drop, and removal by name.
 */
module FileList {
  import opened Wrappers
  import opened FileFormat

  /** One ingested file. */
  datatype FileRecord = FileRecord(name: string, content: string, format: string)

  /**
   * How reading one dropped file ends. `Loaded` is the reader's `load` event
   * with the decoded text. `Rejected` is a synchronous throw inside the
   * promise executor, which rejects the promise and is caught in the loop.
   * `Errored` is the reader's `error` event, which the executor does not
   * listen for.
   */
  datatype ReadOutcome = Loaded(text: string) | Rejected | Errored

  /** A dropped file: its name and the outcome of reading it. */
  datatype Dropped = Dropped(name: string, outcome: ReadOutcome)

  /** The record a successfully read file becomes. */
  function Record(name: string, text: string): (r: FileRecord)
    ensures r.name == name && r.content == text
    ensures r.format == GetFileFormat(name)
  {
    FileRecord(name, text, GetFileFormat(name))
  }

  /** Every record's format is the classification of its own name. */
  ghost predicate Classified(fs: seq<FileRecord>)
  {
    forall i :: 0 <= i < |fs| ==> fs[i].format == GetFileFormat(fs[i].name)
  }

  /** Two classified lists concatenate to a classified list. */
  lemma ClassifiedAppend(a: seq<FileRecord>, b: seq<FileRecord>)
    requires Classified(a) && Classified(b)
    ensures Classified(a + b)
  {
    forall i | 0 <= i < |a + b| ensures (a + b)[i].format == GetFileFormat((a + b)[i].name) {
      if i >= |a| {
        assert (a + b)[i] == b[i - |a|];
      }
    }
  }

  /**
   * The records one drop contributes: the successfully read files, in drop
   * order, each classified by its name; a failed read contributes nothing.
   */
  function Ingest(dropped: seq<Dropped>): (fs: seq<FileRecord>)
    ensures |fs| <= |dropped|
  {
    if |dropped| == 0 then [] else Contribution(dropped[0]) + Ingest(dropped[1..])
  }

  /** What one dropped file adds: its record when it was read, nothing otherwise. */
  function Contribution(d: Dropped): (fs: seq<FileRecord>)
  {
    if d.outcome.Loaded? then [Record(d.name, d.outcome.text)] else []
  }

  /** Every ingested record carries the format of its own name. */
  lemma {:induction false} IngestClassified(dropped: seq<Dropped>)
    ensures Classified(Ingest(dropped))
  {
    if |dropped| > 0 {
      IngestClassified(dropped[1..]);
      ClassifiedAppend(Contribution(dropped[0]), Ingest(dropped[1..]));
    }
  }

  /** The files of a drop whose read succeeded. */
  function LoadedCount(dropped: seq<Dropped>): nat
  {
    if |dropped| == 0 then 0
    else (if dropped[0].outcome.Loaded? then 1 else 0) + LoadedCount(dropped[1..])
  }

  /** Ingesting two drops in a row is ingesting their concatenation: drop order is kept. */
  lemma {:induction false} IngestAppend(a: seq<Dropped>, b: seq<Dropped>)
    ensures Ingest(a + b) == Ingest(a) + Ingest(b)
  {
    if |a| > 0 {
      assert (a + b)[0] == a[0];
      assert (a + b)[1..] == a[1..] + b;
      IngestAppend(a[1..], b);
      assert Ingest(a + b) == Contribution(a[0]) + (Ingest(a[1..]) + Ingest(b));
    } else {
      assert a + b == b;
    }
  }

  /** Ingesting one more dropped file adds its contribution at the end. */
  lemma IngestStep(dropped: seq<Dropped>, i: nat)
    requires i < |dropped|
    ensures Ingest(dropped[..i + 1]) == Ingest(dropped[..i]) + Contribution(dropped[i])
  {
    var one := [dropped[i]];
    assert one[1..] == [];
    assert Ingest(one) == Contribution(dropped[i]) + Ingest([]);
    assert dropped[..i + 1] == dropped[..i] + one;
    IngestAppend(dropped[..i], one);
  }

  /** One record per successfully read file, none for a failed one: no de-duplication. */
  lemma {:induction false} IngestLength(dropped: seq<Dropped>)
    ensures |Ingest(dropped)| == LoadedCount(dropped)
  {
    if |dropped| > 0 {
      IngestLength(dropped[1..]);
    }
  }

  /** A record is ingested exactly when some dropped file with its name read as its content. */
  lemma {:induction false} IngestMembers(dropped: seq<Dropped>, r: FileRecord)
    ensures r in Ingest(dropped) <==>
      exists i :: 0 <= i < |dropped| && dropped[i].outcome == Loaded(r.content) && r == Record(dropped[i].name, r.content)
  {
    if |dropped| > 0 {
      IngestMembers(dropped[1..], r);
      if r in Ingest(dropped[1..]) {
        var i :| 0 <= i < |dropped[1..]| && dropped[1..][i].outcome == Loaded(r.content) && r == Record(dropped[1..][i].name, r.content);
        assert dropped[i + 1] == dropped[1..][i];
      }
      if exists i :: 0 <= i < |dropped| && dropped[i].outcome == Loaded(r.content) && r == Record(dropped[i].name, r.content) {
        var i :| 0 <= i < |dropped| && dropped[i].outcome == Loaded(r.content) && r == Record(dropped[i].name, r.content);
        if i > 0 {
          assert dropped[1..][i - 1] == dropped[i];
        }
      }
    }
  }

  /** When every read succeeds, the i-th record is the i-th dropped file. */
  lemma {:induction false} IngestAllLoaded(dropped: seq<Dropped>)
    requires forall i :: 0 <= i < |dropped| ==> dropped[i].outcome.Loaded?
    ensures |Ingest(dropped)| == |dropped|
    ensures forall i :: 0 <= i < |dropped| ==>
      Ingest(dropped)[i] == Record(dropped[i].name, dropped[i].outcome.text)
  {
    if |dropped| > 0 {
      IngestAllLoaded(dropped[1..]);
    }
  }

  /** When every read fails, nothing is ingested. */
  lemma {:induction false} IngestNoneLoaded(dropped: seq<Dropped>)
    requires forall i :: 0 <= i < |dropped| ==> !dropped[i].outcome.Loaded?
    ensures Ingest(dropped) == []
  {
    if |dropped| > 0 {
      IngestNoneLoaded(dropped[1..]);
    }
  }

  /** Three files dropped, the middle one unreadable: exactly the other two, in order. */
  lemma IngestSkipsFailedRead(a: string, b: string, c: string, x: string, z: string, failed: ReadOutcome)
    requires !failed.Loaded?
    ensures Ingest([Dropped(a, Loaded(x)), Dropped(b, failed), Dropped(c, Loaded(z))])
         == [Record(a, x), Record(c, z)]
  {
    var d := [Dropped(a, Loaded(x)), Dropped(b, failed), Dropped(c, Loaded(z))];
    assert d[1..] == [Dropped(b, failed), Dropped(c, Loaded(z))];
    assert d[1..][1..] == [Dropped(c, Loaded(z))];
    assert d[1..][1..][1..] == [];
    assert Ingest(d[1..][1..]) == [Record(c, z)];
    assert Ingest(d[1..]) == [Record(c, z)];
  }

  // ----- Ingestion as the source writes it -----

  /**
   * The drop as the source runs it: records are collected in a local list
   * and appended once the loop ends. A reader `error` never settles the
   * awaited promise, so the loop stops there for good and nothing of the
   * drop is appended (`None`). A rejected promise is caught and skipped.
   */
  function IngestAsWritten(dropped: seq<Dropped>): Option<seq<FileRecord>>
  {
    if |dropped| == 0 then Some([])
    else
      match dropped[0].outcome
      case Errored => None
      case Rejected => IngestAsWritten(dropped[1..])
      case Loaded(text) =>
        match IngestAsWritten(dropped[1..])
        case None => None
        case Some(rest) => Some([Record(dropped[0].name, text)] + rest)
  }

  /** As written, the drop completes exactly when no read ends in a reader error. */
  lemma {:induction false} IngestAsWrittenStalls(dropped: seq<Dropped>)
    ensures IngestAsWritten(dropped).None? <==> exists i :: 0 <= i < |dropped| && dropped[i].outcome.Errored?
  {
    if |dropped| > 0 {
      IngestAsWrittenStalls(dropped[1..]);
      if exists i :: 0 <= i < |dropped[1..]| && dropped[1..][i].outcome.Errored? {
        var i :| 0 <= i < |dropped[1..]| && dropped[1..][i].outcome.Errored?;
        assert dropped[i + 1] == dropped[1..][i];
      }
      if exists i :: 0 <= i < |dropped| && dropped[i].outcome.Errored? {
        var i :| 0 <= i < |dropped| && dropped[i].outcome.Errored?;
        if i > 0 {
          assert dropped[1..][i - 1] == dropped[i];
        }
      }
    }
  }

  /** Without reader errors the source's drop and `Ingest` give the same records. */
  lemma {:induction false} IngestAsWrittenAgrees(dropped: seq<Dropped>)
    requires forall i :: 0 <= i < |dropped| ==> !dropped[i].outcome.Errored?
    ensures IngestAsWritten(dropped) == Some(Ingest(dropped))
  {
    if |dropped| > 0 {
      var t := dropped[1..];
      forall i | 0 <= i < |t| ensures !t[i].outcome.Errored? {
        assert t[i] == dropped[i + 1];
      }
      IngestAsWrittenAgrees(t);
      assert !dropped[0].outcome.Errored?;
      if dropped[0].outcome.Loaded? {
        assert Ingest(dropped) == [Record(dropped[0].name, dropped[0].outcome.text)] + Ingest(t);
      } else {
        assert Ingest(dropped) == Ingest(t);
      }
    }
  }

  /** One readable file and one reader error: the source appends nothing, `Ingest` keeps the readable one. */
  lemma IngestAsWrittenLosesReadableFile(a: string, x: string, b: string)
    ensures IngestAsWritten([Dropped(a, Loaded(x)), Dropped(b, Errored)]) == None
    ensures Ingest([Dropped(a, Loaded(x)), Dropped(b, Errored)]) == [Record(a, x)]
  {
    var d := [Dropped(a, Loaded(x)), Dropped(b, Errored)];
    assert d[1..] == [Dropped(b, Errored)];
    assert d[1..][1..] == [];
  }

  // ----- Removal -----

  /** `files.filter(file => file.name !== name)`. */
  function RemoveNamed(fs: seq<FileRecord>, name: string): (r: seq<FileRecord>)
    ensures |r| <= |fs|
    ensures forall x :: x in r <==> x in fs && x.name != name
  {
    if |fs| == 0 then []
    else if fs[0].name == name then RemoveNamed(fs[1..], name)
    else [fs[0]] + RemoveNamed(fs[1..], name)
  }

  /** Removal works piecewise, so the kept records stay in their original order. */
  lemma {:induction false} RemoveNamedAppend(a: seq<FileRecord>, b: seq<FileRecord>, name: string)
    ensures RemoveNamed(a + b, name) == RemoveNamed(a, name) + RemoveNamed(b, name)
  {
    if |a| > 0 {
      var ab := a + b;
      assert ab[0] == a[0];
      assert ab[1..] == a[1..] + b;
      RemoveNamedAppend(a[1..], b, name);
      if a[0].name == name {
        assert RemoveNamed(ab, name) == RemoveNamed(a[1..] + b, name);
        assert RemoveNamed(a, name) == RemoveNamed(a[1..], name);
      } else {
        assert RemoveNamed(ab, name) == [a[0]] + RemoveNamed(a[1..] + b, name);
        assert RemoveNamed(a, name) == [a[0]] + RemoveNamed(a[1..], name);
      }
    } else {
      assert a + b == b;
    }
  }


  /** The list is unchanged exactly when no record has the name. */
  lemma {:induction false} RemoveNamedUnchanged(fs: seq<FileRecord>, name: string)
    ensures RemoveNamed(fs, name) == fs <==> forall i :: 0 <= i < |fs| ==> fs[i].name != name
  {
    if |fs| > 0 {
      RemoveNamedUnchanged(fs[1..], name);
      if fs[0].name != name && RemoveNamed(fs[1..], name) == fs[1..] {
        assert fs == [fs[0]] + fs[1..];
      }
      if forall i :: 0 <= i < |fs| ==> fs[i].name != name {
        assert forall i :: 0 <= i < |fs[1..]| ==> fs[1..][i].name != name by {
          forall i | 0 <= i < |fs[1..]| ensures fs[1..][i].name != name {
            assert fs[1..][i] == fs[i + 1];
          }
        }
        assert fs == [fs[0]] + fs[1..];
      }
    }
  }

  /** Removing twice by the same name is removing once. */
  lemma RemoveNamedIdempotent(fs: seq<FileRecord>, name: string)
    ensures RemoveNamed(RemoveNamed(fs, name), name) == RemoveNamed(fs, name)
  {
    var r := RemoveNamed(fs, name);
    assert forall i :: 0 <= i < |r| ==> r[i].name != name by {
      forall i | 0 <= i < |r| ensures r[i].name != name {
        assert r[i] in r;
      }
    }
    RemoveNamedUnchanged(r, name);
  }

  /** Removal keeps every record classified by its name. */
  lemma RemoveNamedClassified(fs: seq<FileRecord>, name: string)
    requires Classified(fs)
    ensures Classified(RemoveNamed(fs, name))
  {
    var r := RemoveNamed(fs, name);
    forall i | 0 <= i < |r| ensures r[i].format == GetFileFormat(r[i].name) {
      assert r[i] in fs;
    }
  }
}
