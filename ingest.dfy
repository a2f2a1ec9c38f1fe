/**
 * The ingestion job: `check_files_exist` and the file/line/commit loop of `index_documents`
 * (pulse/src/main.rs). Globbing and reading files are inputs here: a glob result is the
 * sequence of entries the glob iterator yields, and a file is the sequence of lines read
 * from it, each already deserialised or rejected.
 */
module Ingest {
  import opened Wrappers
  import opened Text
  import opened Records
  import opened Sink

  /** `COMMIT_THRESHOLD`: a periodic commit after every this many added documents. */
  const CommitThreshold: nat := 1000

  /** One line of an input file as `serde_json::from_str::<JsonlEntry>` sees it. */
  datatype Line = Parsed(entry: JsonlEntry) | Malformed

  /**
   * One input file: the lines read from it, and whether reading reached its end. When
   * `complete` is false, opening the file or reading the line after `lines` failed.
   */
  datatype FileRead = FileRead(lines: seq<Line>, complete: bool)

  /** One item of the glob iterator: a matching path, or an error for an unreadable path. */
  datatype GlobEntry<T> = Path(file: T) | GlobError

  /** What `glob(pattern)` gives: an error for a malformed pattern, or its entries in order. */
  datatype Glob<T> = BadPattern | Entries(entries: seq<GlobEntry<T>>)

  /** The reasons the job fails. */
  datatype IngestError =
    | PatternError       // the glob pattern is malformed
    | NoFilesFound       // no glob entry matched a file
    | IoError            // a file could not be opened or a line could not be read
    | AddFailed          // the writer refused a document
    | FinalCommitFailed  // the unconditional last commit failed

  /** What the job reports at the end: documents processed, files processed, lines per file. */
  datatype Summary = Summary(totalProcessed: nat, fileCount: nat, lineCounts: seq<nat>)

  // ---------------------------------------------------------------------------
  // File discovery

  /** The number of glob entries that are paths. */
  function MatchCount<T>(g: seq<GlobEntry<T>>): (n: nat)
    ensures n <= |g|
    ensures n == 0 <==> forall k :: 0 <= k < |g| ==> g[k].GlobError?
  {
    if g == [] then 0
    else
      var init := g[..|g| - 1];
      var n := MatchCount(init) + (if g[|g| - 1].Path? then 1 else 0);
      assert forall k :: 0 <= k < |init| ==> init[k] == g[k];
      n
  }

  /**
   * `check_files_exist`: counts the entries that are paths (errors are only logged) and
   * fails when there is none.
   */
  method CheckFilesExist<T>(glob: Glob<T>) returns (r: Result<nat, IngestError>)
    ensures glob.BadPattern? ==> r == Err(PatternError)
    ensures glob.Entries? ==>
      (r.Ok? <==> exists k :: 0 <= k < |glob.entries| && glob.entries[k].Path?)
    ensures glob.Entries? && r.Ok? ==> r.value == MatchCount(glob.entries)
    ensures glob.Entries? && r.Err? ==> r.error == NoFilesFound
  {
    if glob.BadPattern? {
      return Err(PatternError);
    }
    var entries := glob.entries;
    var count := 0;
    var i := 0;
    while i < |entries|
      invariant 0 <= i <= |entries|
      invariant count == MatchCount(entries[..i])
    {
      match entries[i] {
        case Path(_) => count := count + 1;
        case GlobError =>
      }
      i := i + 1;
      assert entries[..i][..i - 1] == entries[..i - 1];
    }
    assert entries[..i] == entries;
    if count == 0 {
      return Err(NoFilesFound);
    }
    return Ok(count);
  }

  // ---------------------------------------------------------------------------
  // Lines and files

  /** The records of the lines that parse, in line order. */
  function Accepted(lines: seq<Line>): (es: seq<JsonlEntry>)
    ensures |es| <= |lines|
  {
    if lines == [] then []
    else
      Accepted(lines[..|lines| - 1])
      + match lines[|lines| - 1] case Parsed(e) => [e] case Malformed => []
  }

  /** The number of lines that do not parse. */
  function MalformedCount(lines: seq<Line>): nat {
    if lines == [] then 0
    else MalformedCount(lines[..|lines| - 1]) + (if lines[|lines| - 1].Malformed? then 1 else 0)
  }

  /** The records of one glob entry: those of its file, or none for a glob error. */
  function FileEntries(ge: GlobEntry<FileRead>): seq<JsonlEntry> {
    match ge
    case Path(f) => Accepted(f.lines)
    case GlobError => []
  }

  /** The records of every file, file by file and line by line within each. */
  function AcceptedAll(g: seq<GlobEntry<FileRead>>): seq<JsonlEntry> {
    if g == [] then [] else AcceptedAll(g[..|g| - 1]) + FileEntries(g[|g| - 1])
  }

  /** A glob entry the job gets through without an I/O error. */
  predicate Readable(ge: GlobEntry<FileRead>) {
    ge.GlobError? || ge.file.complete
  }

  predicate AllReadable(g: seq<GlobEntry<FileRead>>) {
    forall k :: 0 <= k < |g| ==> Readable(g[k])
  }

  /**
   * The records the job gets to read: those of every file up to and including the first
   * one that fails to read, in file-then-line order.
   */
  function ReadEntries(g: seq<GlobEntry<FileRead>>): seq<JsonlEntry> {
    if g == [] then []
    else
      match g[0]
      case GlobError => ReadEntries(g[1..])
      case Path(f) => Accepted(f.lines) + (if f.complete then ReadEntries(g[1..]) else [])
  }

  /** The number of lines of each file, one entry per path. */
  function LineCounts(g: seq<GlobEntry<FileRead>>): seq<nat> {
    if g == [] then []
    else
      LineCounts(g[..|g| - 1])
      + match g[|g| - 1] case Path(f) => [|f.lines|] case GlobError => []
  }

  /** The total number of lines in the files. */
  function TotalLines(g: seq<GlobEntry<FileRead>>): nat {
    if g == [] then 0
    else
      TotalLines(g[..|g| - 1])
      + match g[|g| - 1] case Path(f) => |f.lines| case GlobError => 0
  }

  /** The total number of lines that do not parse. */
  function MalformedTotal(g: seq<GlobEntry<FileRead>>): nat {
    if g == [] then 0
    else
      MalformedTotal(g[..|g| - 1])
      + match g[|g| - 1] case Path(f) => MalformedCount(f.lines) case GlobError => 0
  }

  /**
   * The conversion of one record into the document handed to the writer, against a fixed
   * blocklist. The loops below take it as a value and never look inside a document.
   */
  function Derive(nsfwDomains: set<String>): JsonlEntry -> Document {
    e => MakeDocument(e, nsfwDomains)
  }

  /** The documents derived from the records, one each, in order. */
  function Documents(es: seq<JsonlEntry>, derive: JsonlEntry -> Document): (ds: seq<Document>)
    ensures |ds| == |es|
  {
    if es == [] then []
    else Documents(es[..|es| - 1], derive) + [derive(es[|es| - 1])]
  }

  /**
   * The commit log of the periodic commits after `n` added documents: one commit each time
   * the running count reaches a multiple of the threshold.
   */
  function Checkpoints(n: nat): seq<nat> {
    if n == 0 then []
    else Checkpoints(n - 1) + (if n % CommitThreshold == 0 then [n] else [])
  }

  // ---------------------------------------------------------------------------
  // Lemmas about lines and files

  /** Every line either parses into a record or counts as malformed. */
  lemma {:induction false} AcceptedCount(lines: seq<Line>)
    ensures |Accepted(lines)| + MalformedCount(lines) == |lines|
  {
    if lines != [] {
      AcceptedCount(lines[..|lines| - 1]);
    }
  }

  /** Accepting lines distributes over concatenation, so the records keep line order. */
  lemma {:induction false} AcceptedConcat(a: seq<Line>, b: seq<Line>)
    ensures Accepted(a + b) == Accepted(a) + Accepted(b)
    decreases |b|
  {
    if b != [] {
      var b' := b[..|b| - 1];
      assert (a + b)[..|a + b| - 1] == a + b';
      AcceptedConcat(a, b');
    } else {
      assert a + b == a;
    }
  }

  /** A record is accepted exactly when some line parsed into it. */
  lemma {:induction false} AcceptedMembership(lines: seq<Line>, e: JsonlEntry)
    ensures e in Accepted(lines) <==> Parsed(e) in lines
  {
    if lines != [] {
      var init := lines[..|lines| - 1];
      AcceptedMembership(init, e);
      assert lines == init + [lines[|lines| - 1]];
    }
  }

  /** A file with one good line and one malformed line gives exactly one record. */
  lemma OneGoodOneMalformed(e: JsonlEntry)
    ensures Accepted([Parsed(e), Malformed]) == [e]
    ensures MalformedCount([Parsed(e), Malformed]) == 1
  {
    var lines := [Parsed(e), Malformed];
    assert lines[..1] == [Parsed(e)] && lines[..1][..0] == [];
    assert MalformedCount(lines[..1]) == 0;
  }

  /** Collecting records distributes over files, so the records keep file-then-line order. */
  lemma {:induction false} AcceptedAllConcat(g1: seq<GlobEntry<FileRead>>, g2: seq<GlobEntry<FileRead>>)
    ensures AcceptedAll(g1 + g2) == AcceptedAll(g1) + AcceptedAll(g2)
    decreases |g2|
  {
    if g2 != [] {
      var g2' := g2[..|g2| - 1];
      assert (g1 + g2)[..|g1 + g2| - 1] == g1 + g2';
      AcceptedAllConcat(g1, g2');
    } else {
      assert g1 + g2 == g1;
    }
  }

  /** Over files that all read, every line becomes a record or counts as malformed. */
  lemma {:induction false} ProcessedPlusMalformed(g: seq<GlobEntry<FileRead>>)
    ensures |AcceptedAll(g)| + MalformedTotal(g) == TotalLines(g)
  {
    if g != [] {
      ProcessedPlusMalformed(g[..|g| - 1]);
      match g[|g| - 1] {
        case Path(f) => AcceptedCount(f.lines);
        case GlobError =>
      }
    }
  }

  /** When no file fails to read, the job reads every record. */
  lemma ReadEntriesOfReadable(g: seq<GlobEntry<FileRead>>)
    requires AllReadable(g)
    ensures ReadEntries(g) == AcceptedAll(g)
  {
    ReadEntriesAfter(g, |g|);
    assert g[..|g|] == g;
  }

  /** Reading one more line adds its record, if it parses. */
  lemma NextLine(lines: seq<Line>, j: nat)
    requires j < |lines|
    ensures lines[j].Parsed? ==> Accepted(lines[..j + 1]) == Accepted(lines[..j]) + [lines[j].entry]
    ensures lines[j].Malformed? ==> Accepted(lines[..j + 1]) == Accepted(lines[..j])
  {
    assert lines[..j + 1][..j] == lines[..j];
  }

  /** The documents of a file's first `j + 1` lines, when line `j` parses, after any earlier ones. */
  lemma AppendLineDocument(base: seq<Document>, lines: seq<Line>, j: nat, derive: JsonlEntry -> Document)
    requires j < |lines| && lines[j].Parsed?
    ensures base + Documents(Accepted(lines[..j]), derive) + [derive(lines[j].entry)]
      == base + Documents(Accepted(lines[..j + 1]), derive)
  {
    var done := Documents(Accepted(lines[..j]), derive);
    NextLine(lines, j);
    DocumentsSnoc(Accepted(lines[..j]), lines[j].entry, derive);
    assert (base + done) + [derive(lines[j].entry)] == base + (done + [derive(lines[j].entry)]);
  }

  /** Extending the files seen by one glob entry extends each running total by that entry. */
  lemma NextGlobEntry(g: seq<GlobEntry<FileRead>>, i: nat)
    requires i < |g|
    ensures AcceptedAll(g[..i + 1]) == AcceptedAll(g[..i]) + FileEntries(g[i])
    ensures MatchCount(g[..i + 1]) == MatchCount(g[..i]) + (if g[i].Path? then 1 else 0)
    ensures LineCounts(g[..i + 1])
      == LineCounts(g[..i]) + (match g[i] case Path(f) => [|f.lines|] case GlobError => [])
    ensures AllReadable(g[..i + 1]) <==> AllReadable(g[..i]) && Readable(g[i])
  {
    assert g[..i + 1][..i] == g[..i];
    assert g[..i + 1][i] == g[i];
  }

  /** The records read are those of the first `i` files, then those read from the rest. */
  lemma {:induction false} ReadEntriesAfter(g: seq<GlobEntry<FileRead>>, i: nat)
    requires i <= |g| && AllReadable(g[..i])
    ensures ReadEntries(g) == AcceptedAll(g[..i]) + ReadEntries(g[i..])
  {
    if i == 0 {
      assert g[..0] == [] && g[0..] == g;
    } else {
      assert AllReadable(g[..i - 1]) by {
        forall k | 0 <= k < i - 1 ensures Readable(g[k]) {
          assert g[k] == g[..i][k];
        }
      }
      ReadEntriesAfter(g, i - 1);
      assert Readable(g[..i][i - 1]);
      assert g[i - 1..][1..] == g[i..];
      assert g[..i][..i - 1] == g[..i - 1];
    }
  }

  /** Where the next record comes from while file `i` is being read at line `j`. */
  lemma NextReadEntry(g: seq<GlobEntry<FileRead>>, i: nat, j: nat)
    requires i < |g| && g[i].Path? && AllReadable(g[..i])
    requires j < |g[i].file.lines| && g[i].file.lines[j].Parsed?
    ensures var done := AcceptedAll(g[..i]) + Accepted(g[i].file.lines[..j]);
      |done| < |ReadEntries(g)|
      && ReadEntries(g)[..|done|] == done
      && ReadEntries(g)[|done|] == g[i].file.lines[j].entry
  {
    var f := g[i].file;
    ReadEntriesAtFile(g, i);
    AcceptedAround(f.lines, j);
    var rest := if f.complete then ReadEntries(g[i + 1..]) else [];
    SplitAround(ReadEntries(g), AcceptedAll(g[..i]), Accepted(f.lines[..j]), f.lines[j].entry,
      Accepted(f.lines[j + 1..]), rest);
  }

  /** The records read are those of the first `i` files, then those of file `i`, then the rest. */
  lemma ReadEntriesAtFile(g: seq<GlobEntry<FileRead>>, i: nat)
    requires i < |g| && g[i].Path? && AllReadable(g[..i])
    ensures ReadEntries(g) == AcceptedAll(g[..i])
      + (Accepted(g[i].file.lines) + (if g[i].file.complete then ReadEntries(g[i + 1..]) else []))
  {
    ReadEntriesAfter(g, i);
    assert g[i..][0] == g[i] && g[i..][1..] == g[i + 1..];
  }

  /** The records of a file are those before line `j`, that of line `j`, and those after. */
  lemma {:induction false} AcceptedAround(lines: seq<Line>, j: nat)
    requires j < |lines| && lines[j].Parsed?
    ensures Accepted(lines) == Accepted(lines[..j]) + [lines[j].entry] + Accepted(lines[j + 1..])
  {
    var upTo, after := lines[..j + 1], lines[j + 1..];
    assert lines == upTo + after;
    AcceptedConcat(upTo, after);
    NextLine(lines, j);
  }

  lemma SplitAround<T>(r: seq<T>, a: seq<T>, b: seq<T>, x: T, c: seq<T>, d: seq<T>)
    requires r == a + ((b + [x] + c) + d)
    ensures |a + b| < |r| && r[..|a + b|] == a + b && r[|a + b|] == x
  {
    assert r == (a + b) + ([x] + c + d);
  }

  /** What the job has read when file `i` fails. */
  lemma ReadEntriesAtFailure(g: seq<GlobEntry<FileRead>>, i: nat)
    requires i < |g| && g[i].Path? && !g[i].file.complete && AllReadable(g[..i])
    ensures ReadEntries(g) == AcceptedAll(g[..i]) + Accepted(g[i].file.lines) == AcceptedAll(g[..i + 1])
    ensures !AllReadable(g)
  {
    NextGlobEntry(g, i);
    ReadEntriesAfter(g, i);
    assert g[i..][0] == g[i];
  }

  /** Appending one record appends its document. */
  lemma DocumentsSnoc(es: seq<JsonlEntry>, e: JsonlEntry, derive: JsonlEntry -> Document)
    ensures Documents(es + [e], derive) == Documents(es, derive) + [derive(e)]
  {
    assert (es + [e])[..|es|] == es;
  }

  /** Deriving documents distributes over concatenation. */
  lemma {:induction false} DocumentsConcat(a: seq<JsonlEntry>, b: seq<JsonlEntry>, derive: JsonlEntry -> Document)
    ensures Documents(a + b, derive) == Documents(a, derive) + Documents(b, derive)
    decreases |b|
  {
    if b == [] {
      assert a + b == a;
    } else {
      var b' := b[..|b| - 1];
      assert a + b == (a + b') + [b[|b| - 1]];
      DocumentsConcat(a, b', derive);
      DocumentsSnoc(a + b', b[|b| - 1], derive);
      DocumentsSnoc(b', b[|b| - 1], derive);
      assert b == b' + [b[|b| - 1]];
    }
  }

  /**
   * The documents of a job refused at line `stop` of file `i` are those of the records read
   * before that line, a proper prefix of what the job would read.
   */
  lemma RefusedInFile(g: seq<GlobEntry<FileRead>>, i: nat, stop: nat, derive: JsonlEntry -> Document)
    requires i < |g| && g[i].Path? && AllReadable(g[..i])
    requires stop < |g[i].file.lines| && g[i].file.lines[stop].Parsed?
    ensures var added := Documents(AcceptedAll(g[..i]), derive) + Documents(Accepted(g[i].file.lines[..stop]), derive);
      |added| < |ReadEntries(g)| && added == Documents(ReadEntries(g)[..|added|], derive)
  {
    NextReadEntry(g, i, stop);
    DocumentsConcat(AcceptedAll(g[..i]), Accepted(g[i].file.lines[..stop]), derive);
  }

  /** The documents after file `i` are those of the records of the first `i + 1` files. */
  lemma FileDone(g: seq<GlobEntry<FileRead>>, i: nat, derive: JsonlEntry -> Document)
    requires i < |g| && g[i].Path?
    ensures Documents(AcceptedAll(g[..i]), derive) + Documents(Accepted(g[i].file.lines), derive)
      == Documents(AcceptedAll(g[..i + 1]), derive)
  {
    NextGlobEntry(g, i);
    DocumentsConcat(AcceptedAll(g[..i]), Accepted(g[i].file.lines), derive);
  }

  /** The `k`-th document is derived from the `k`-th record. */
  lemma {:induction false} DocumentsAt(es: seq<JsonlEntry>, derive: JsonlEntry -> Document, k: nat)
    requires k < |es|
    ensures Documents(es, derive)[k] == derive(es[k])
  {
    if k < |es| - 1 {
      DocumentsAt(es[..|es| - 1], derive, k);
    }
  }

  /** With the job's conversion, the `k`-th document is `MakeDocument` of the `k`-th record. */
  lemma DocumentOfRecord(es: seq<JsonlEntry>, nsfwDomains: set<String>, k: nat)
    requires k < |es|
    ensures Documents(es, Derive(nsfwDomains))[k] == MakeDocument(es[k], nsfwDomains)
  {
    DocumentsAt(es, Derive(nsfwDomains), k);
  }

  // ---------------------------------------------------------------------------
  // Lemmas about the commit schedule

  /** After `n` documents there have been `n / 1000` periodic commits. */
  lemma {:induction false} CheckpointsCount(n: nat)
    ensures |Checkpoints(n)| == n / CommitThreshold
  {
    if n > 0 {
      CheckpointsCount(n - 1);
    }
  }

  /** A periodic commit is issued exactly at the positive multiples of 1000 up to `n`. */
  lemma {:induction false} CheckpointsAre(n: nat, m: nat)
    ensures m in Checkpoints(n) <==> 0 < m <= n && m % CommitThreshold == 0
  {
    if n > 0 {
      CheckpointsAre(n - 1, m);
    }
  }

  /** The `k`-th periodic commit is issued at `(k + 1) * 1000` documents. */
  lemma {:induction false} CheckpointsIndex(n: nat, k: nat)
    requires k < |Checkpoints(n)|
    ensures Checkpoints(n)[k] == (k + 1) * CommitThreshold
  {
    CheckpointsCount(n);
    if k < |Checkpoints(n - 1)| {
      CheckpointsIndex(n - 1, k);
    } else {
      CheckpointsCount(n - 1);
    }
  }

  /**
   * The commit calls of a run over `n` records with no failure before the end: the periodic
   * ones and the final one, `n / 1000 + 1` in all. 2500 records give commits at 1000, 2000
   * and 2500; no record gives the final commit alone.
   */
  lemma CommitCalls(n: nat)
    ensures |Checkpoints(n) + [n]| == n / CommitThreshold + 1
    ensures Checkpoints(2500) + [2500] == [1000, 2000, 2500]
    ensures Checkpoints(0) + [0] == [0]
  {
    CheckpointsCount(n);
    CheckpointsCount(2500);
    CheckpointsIndex(2500, 0);
    CheckpointsIndex(2500, 1);
  }

  // ---------------------------------------------------------------------------
  // The job

  /** The writer's state between documents: everything added so far was accepted, with its commits. */
  ghost predicate Progress(writer: IndexWriter, totalProcessed: nat)
    reads writer
  {
    writer.Valid()
    && totalProcessed == |writer.added| == writer.addCalls
    && (forall k :: 0 <= k < totalProcessed ==> Succeeds(writer.addOracle, k))
    && writer.commitLog == Checkpoints(totalProcessed)
  }

  /** The writer's state once it has refused the document after the first `totalProcessed`. */
  ghost predicate Refused(writer: IndexWriter, totalProcessed: nat)
    reads writer
  {
    writer.Valid()
    && totalProcessed == |writer.added|
    && writer.addCalls == totalProcessed + 1
    && (forall k :: 0 <= k < totalProcessed ==> Succeeds(writer.addOracle, k))
    && !Succeeds(writer.addOracle, totalProcessed)
    && writer.commitLog == Checkpoints(totalProcessed)
  }

  /**
   * One parsed line of `index_documents`: the document goes to the writer; once it is
   * accepted the running count goes up, and when the count reaches a multiple of 1000 a
   * commit is issued whose failure is ignored. A refused document leaves the count as it was.
   */
  method IndexRecord(writer: IndexWriter, doc: Document, totalBefore: nat)
    returns (ok: bool, totalProcessed: nat)
    requires Progress(writer, totalBefore)
    modifies writer
    ensures ok ==> totalProcessed == totalBefore + 1 && Progress(writer, totalProcessed)
    ensures !ok ==> totalProcessed == totalBefore && Refused(writer, totalProcessed)
    ensures writer.added == old(writer.added) + (if ok then [doc] else [])
  {
    ok := writer.AddDocument(doc);
    totalProcessed := totalBefore;
    if !ok {
      return;
    }
    totalProcessed := totalProcessed + 1;
    assert Checkpoints(totalProcessed) == Checkpoints(totalBefore)
      + (if totalProcessed % CommitThreshold == 0 then [totalProcessed] else []);
    if totalProcessed % CommitThreshold == 0 {
      var committed := writer.Commit();
    }
  }

  /**
   * The body of the per-file loop of `index_documents`: reads the lines of one file in order,
   * counting each; a line that parses becomes a document for the writer, and a line that
   * does not is skipped. A refused document stops at once; `stop` is then the index of its
   * line.
   */
  method IndexFile(writer: IndexWriter, lines: seq<Line>, derive: JsonlEntry -> Document, totalBefore: nat)
    returns (refused: bool, totalProcessed: nat, lineCount: nat, ghost stop: nat)
    requires Progress(writer, totalBefore)
    modifies writer
    ensures !refused ==>
      Progress(writer, totalProcessed)
      && writer.added == old(writer.added) + Documents(Accepted(lines), derive)
      && lineCount == |lines|
    ensures refused ==>
      stop < |lines| && lines[stop].Parsed?
      && Refused(writer, totalProcessed)
      && writer.added == old(writer.added) + Documents(Accepted(lines[..stop]), derive)
  {
    totalProcessed, lineCount, stop := totalBefore, 0, 0;
    ghost var base := writer.added;
    var j := 0;
    while j < |lines|
      invariant 0 <= j <= |lines| && lineCount == j
      invariant Progress(writer, totalProcessed)
      invariant writer.added == base + Documents(Accepted(lines[..j]), derive)
    {
      lineCount := lineCount + 1;
      match lines[j] {
        case Parsed(e) =>
          var ok;
          ok, totalProcessed := IndexRecord(writer, derive(e), totalProcessed);
          if !ok {
            return true, totalProcessed, lineCount, j;
          }
          AppendLineDocument(base, lines, j, derive);
        case Malformed =>
          NextLine(lines, j);
      }
      j := j + 1;
    }
    assert lines[..j] == lines;
    refused := false;
  }

  /**
   * What a job over the glob entries `g` leaves behind, whatever its outcome. The documents
   * are those of the records read, in order, up to the first refused one, and every add but
   * a refused one succeeded. A refused document ends the job after its periodic commits, as
   * does an I/O error; otherwise one final commit is issued after the periodic ones, and
   * that commit alone decides between the summary and an error.
   */
  ghost predicate Outcome(g: seq<GlobEntry<FileRead>>, derive: JsonlEntry -> Document,
                          result: Result<Summary, IngestError>, writer: IndexWriter)
    reads writer
  {
    AddedSoFar(g, derive, writer) && Ending(g, result, writer)
  }

  /** The documents are those of the first records read, every one of them added without fault. */
  ghost predicate AddedSoFar(g: seq<GlobEntry<FileRead>>, derive: JsonlEntry -> Document, writer: IndexWriter)
    reads writer
  {
    var n := |writer.added|;
    var read := ReadEntries(g);
    n <= |read|
    && writer.added == Documents(read[..n], derive)
    && (forall k :: 0 <= k < n ==> Succeeds(writer.addOracle, k))
  }

  /** How the job ended: the calls issued and the result, by where the documents stop. */
  ghost predicate Ending(g: seq<GlobEntry<FileRead>>, result: Result<Summary, IngestError>, writer: IndexWriter)
    reads writer
  {
    var n := |writer.added|;
    var read := ReadEntries(g);
    (n < |read| ==>
       !Succeeds(writer.addOracle, n)
       && writer.addCalls == n + 1
       && writer.commitLog == Checkpoints(n)
       && result == Err(AddFailed))
    && (n == |read| ==> writer.addCalls == n)
    && (n == |read| && !AllReadable(g) ==>
          writer.commitLog == Checkpoints(n) && result == Err(IoError))
    && (n == |read| && AllReadable(g) ==>
          writer.commitLog == Checkpoints(n) + [n]
          && (result.Ok? <==> Succeeds(writer.commitOracle, n / CommitThreshold))
          && (result.Ok? ==> writer.durable == n)
          && (result.Ok? ==> result.value == Summary(n, MatchCount(g), LineCounts(g)))
          && (result.Err? ==> result.error == FinalCommitFailed))
  }


  /** A job refused at line `stop` of file `i` ends as `Outcome` says. */
  lemma RefusalOutcome(g: seq<GlobEntry<FileRead>>, i: nat, stop: nat, derive: JsonlEntry -> Document,
                       result: Result<Summary, IngestError>, writer: IndexWriter)
    requires i < |g| && g[i].Path? && AllReadable(g[..i])
    requires stop < |g[i].file.lines| && g[i].file.lines[stop].Parsed?
    requires Refused(writer, |writer.added|)
    requires writer.added
      == Documents(AcceptedAll(g[..i]), derive) + Documents(Accepted(g[i].file.lines[..stop]), derive)
    requires result == Err(AddFailed)
    ensures Outcome(g, derive, result, writer)
  {
    RefusedInFile(g, i, stop, derive);
  }

  /** A job whose file `i` fails to read ends as `Outcome` says. */
  lemma IoErrorOutcome(g: seq<GlobEntry<FileRead>>, i: nat, derive: JsonlEntry -> Document,
                       result: Result<Summary, IngestError>, writer: IndexWriter)
    requires i < |g| && g[i].Path? && !g[i].file.complete && AllReadable(g[..i])
    requires Progress(writer, |writer.added|)
    requires writer.added == Documents(AcceptedAll(g[..i + 1]), derive)
    requires result == Err(IoError)
    ensures Outcome(g, derive, result, writer)
  {
    ReadEntriesAtFailure(g, i);
    assert ReadEntries(g)[..|writer.added|] == ReadEntries(g);
  }

  /** A job that reads every file ends, after its final commit, as `Outcome` says. */
  lemma FinalOutcome(g: seq<GlobEntry<FileRead>>, derive: JsonlEntry -> Document,
                     result: Result<Summary, IngestError>, writer: IndexWriter, committed: bool)
    requires AllReadable(g)
    requires writer.Valid() && |writer.added| == writer.addCalls
    requires forall k :: 0 <= k < |writer.added| ==> Succeeds(writer.addOracle, k)
    requires writer.added == Documents(AcceptedAll(g), derive)
    requires writer.commitLog == Checkpoints(|writer.added|) + [|writer.added|]
    requires committed == Succeeds(writer.commitOracle, |Checkpoints(|writer.added|)|)
    requires committed ==> writer.durable == |writer.added|
    requires result == if committed then Ok(Summary(|writer.added|, MatchCount(g), LineCounts(g)))
                       else Err(FinalCommitFailed)
    ensures Outcome(g, derive, result, writer)
  {
    ReadEntriesOfReadable(g);
    CheckpointsCount(|writer.added|);
    assert ReadEntries(g)[..|writer.added|] == ReadEntries(g);
  }

  /**
   * `index_documents`: makes a writer, then for every glob entry that is a path reads its
   * lines in order; each line that parses becomes one document added to the writer, and
   * each time the running count reaches a multiple of 1000 a commit is issued whose failure
   * is ignored. Lines that do not parse are counted and skipped; glob errors are skipped.
   * An I/O error or a refused document ends the job with an error; otherwise one final
   * commit is issued and its failure is the job's failure.
   */
  method IndexDocuments(glob: Glob<FileRead>, nsfwDomains: set<String>, addOracle: seq<bool>, commitOracle: seq<bool>)
    returns (result: Result<Summary, IngestError>, writer: IndexWriter)
    ensures fresh(writer) && writer.Valid()
    ensures writer.addOracle == addOracle && writer.commitOracle == commitOracle
    ensures glob.BadPattern? ==>
      result == Err(PatternError) && writer.added == [] && writer.addCalls == 0 && writer.commitLog == []
    ensures glob.Entries? ==> Outcome(glob.entries, Derive(nsfwDomains), result, writer)
  {
    writer := new IndexWriter(addOracle, commitOracle);
    if glob.BadPattern? {
      return Err(PatternError), writer;
    }
    result := IndexEntries(writer, glob.entries, Derive(nsfwDomains));
  }

  /**
   * The glob loop of `index_documents` and its final commit, over a writer that has seen
   * nothing yet, with `derive` turning each record into its document.
   */
  method IndexEntries(writer: IndexWriter, g: seq<GlobEntry<FileRead>>, derive: JsonlEntry -> Document)
    returns (result: Result<Summary, IngestError>)
    requires Progress(writer, 0)
    modifies writer
    ensures writer.Valid()
    ensures Outcome(g, derive, result, writer)
  {
    var totalProcessed: nat := 0;
    var fileCount: nat := 0;
    var lineCounts: seq<nat> := [];
    var i := 0;
    while i < |g|
      invariant 0 <= i <= |g|
      invariant Progress(writer, totalProcessed)
      invariant AllReadable(g[..i])
      invariant writer.added == Documents(AcceptedAll(g[..i]), derive)
      invariant fileCount == MatchCount(g[..i]) && lineCounts == LineCounts(g[..i])
    {
      var stopped;
      stopped, result, totalProcessed, fileCount, lineCounts
        := IndexGlobEntry(writer, g, i, derive, totalProcessed, fileCount, lineCounts);
      if stopped {
        return;
      }
      i := i + 1;
    }
    assert g[..i] == g;
    result := FinalCommit(writer, g, derive, totalProcessed, fileCount, lineCounts);
  }

  /**
   * One entry of the glob loop: a glob error is skipped, a path has its file indexed. Unless
   * the job ends there, the running totals then cover the entries up to and including it.
   */
  method IndexGlobEntry(writer: IndexWriter, g: seq<GlobEntry<FileRead>>, i: nat, derive: JsonlEntry -> Document,
                        totalBefore: nat, filesBefore: nat, countsBefore: seq<nat>)
    returns (stopped: bool, result: Result<Summary, IngestError>,
             totalProcessed: nat, fileCount: nat, lineCounts: seq<nat>)
    requires i < |g| && AllReadable(g[..i])
    requires Progress(writer, totalBefore)
    requires writer.added == Documents(AcceptedAll(g[..i]), derive)
    requires filesBefore == MatchCount(g[..i]) && countsBefore == LineCounts(g[..i])
    modifies writer
    ensures writer.Valid()
    ensures stopped ==> Outcome(g, derive, result, writer)
    ensures !stopped ==>
      AllReadable(g[..i + 1])
      && Progress(writer, totalProcessed)
      && writer.added == Documents(AcceptedAll(g[..i + 1]), derive)
      && fileCount == MatchCount(g[..i + 1]) && lineCounts == LineCounts(g[..i + 1])
  {
    NextGlobEntry(g, i);
    stopped, result, totalProcessed, fileCount, lineCounts := false, Err(IoError), totalBefore, filesBefore, countsBefore;
    match g[i] {
      case GlobError =>
        assert AcceptedAll(g[..i + 1]) == AcceptedAll(g[..i]);
      case Path(f) =>
        fileCount := fileCount + 1;
        var lineCount;
        stopped, result, totalProcessed, lineCount := IndexPath(writer, g, i, derive, totalBefore);
        lineCounts := lineCounts + [lineCount];
    }
  }

  /**
   * One path of the glob loop: its file is indexed line by line. A refused document or a
   * failed read ends the job as `Outcome` says; otherwise every record of the file has
   * joined the writer.
   */
  method IndexPath(writer: IndexWriter, g: seq<GlobEntry<FileRead>>, i: nat, derive: JsonlEntry -> Document,
                   totalBefore: nat)
    returns (stopped: bool, result: Result<Summary, IngestError>, totalProcessed: nat, lineCount: nat)
    requires i < |g| && g[i].Path? && AllReadable(g[..i])
    requires Progress(writer, totalBefore)
    requires writer.added == Documents(AcceptedAll(g[..i]), derive)
    modifies writer
    ensures writer.Valid()
    ensures stopped ==> Outcome(g, derive, result, writer)
    ensures !stopped ==>
      g[i].file.complete
      && Progress(writer, totalProcessed)
      && writer.added == Documents(AcceptedAll(g[..i + 1]), derive)
      && lineCount == |g[i].file.lines|
  {
    var f := g[i].file;
    var refused;
    ghost var stop;
    refused, totalProcessed, lineCount, stop := IndexFile(writer, f.lines, derive, totalBefore);
    if refused {
      stopped, result := true, Err(AddFailed);
      RefusalOutcome(g, i, stop, derive, result, writer);
      return;
    }
    FileDone(g, i, derive);
    if !f.complete {
      stopped, result := true, Err(IoError);
      IoErrorOutcome(g, i, derive, result, writer);
      return;
    }
    stopped, result := false, Err(IoError);
  }

  /** The final commit of `index_documents`, once every file has been read in full. */
  method FinalCommit(writer: IndexWriter, g: seq<GlobEntry<FileRead>>, derive: JsonlEntry -> Document,
                     totalProcessed: nat, fileCount: nat, lineCounts: seq<nat>)
    returns (result: Result<Summary, IngestError>)
    requires AllReadable(g) && Progress(writer, totalProcessed)
    requires writer.added == Documents(AcceptedAll(g), derive)
    requires fileCount == MatchCount(g) && lineCounts == LineCounts(g)
    modifies writer
    ensures writer.Valid()
    ensures Outcome(g, derive, result, writer)
  {
    var committed := writer.Commit();
    result := if committed then Ok(Summary(totalProcessed, fileCount, lineCounts)) else Err(FinalCommitFailed);
    FinalOutcome(g, derive, result, writer, committed);
  }
}
