/** The newer ripgrep worker of `src/rg_worker.rs`: records are handled by
    `handle_command`, which collects the lines of the current file in a
    `MatchedFileBuilder` and appends the built file to the results at `end`. */
module RgWorker {
  import opened Strings
  import opened RgMessage
  import opened LineModel
  import RecordStream

  /** `MatchedFileBuilder` */
  datatype Builder = Builder(filePath: string, lines: seq<Line>)

  /** `MatchedFileBuilder::default()` */
  const EmptyBuilder := Builder("", [])

  /** The builder and the shared results vector. */
  datatype State = State(builder: Builder, results: seq<MatchedFile>)

  const Initial := State(EmptyBuilder, [])

  /** `MatchedFileBuilder::build`: the file built so far; the builder is left empty. */
  function Build(b: Builder): (r: (MatchedFile, Builder))
    ensures r.1 == EmptyBuilder
  {
    (MatchedFile(b.filePath, b.lines), EmptyBuilder)
  }

  /** `push_context`: ripgrep's 1-based line number becomes a 0-based one. */
  function LineOf(n: LineNumber, text: string, submatches: seq<Range>): (l: Line)
    ensures l.num + 1 == n
  {
    Line(n - 1, text, submatches)
  }

  /** `handle_command` for one record. Results grow only at `end`, by one file. */
  function Handle(st: State, rec: Record): (r: State)
    ensures |r.results| == |st.results| + (if rec.End? then 1 else 0)
    ensures r.results[..|st.results|] == st.results
    ensures rec.Begin? ==> r.builder.filePath == rec.path && r.builder.lines == st.builder.lines
  {
    match rec
    case Begin(path) => st.(builder := st.builder.(filePath := path))
    case End =>
      var (found, rest) := Build(st.builder);
      State(rest, st.results + [found])
    case Context(n, text) => st.(builder := st.builder.(lines := st.builder.lines + [LineOf(n, text, [])]))
    case Match(n, text, subs) => st.(builder := st.builder.(lines := st.builder.lines + [LineOf(n, text, subs)]))
    case Other => st
  }

  /** Handling a sequence of records, in order. */
  function Run(st: State, recs: seq<Record>): State {
    RecordStream.Fold(Handle, st, recs)
  }

  /** The lines that the context and match records of `recs` contribute, in order. */
  function LinesOf(recs: seq<Record>): seq<Line> {
    if recs == [] then []
    else
      LinesOf(recs[..|recs| - 1]) +
      match recs[|recs| - 1]
      case Context(n, text) => [LineOf(n, text, [])]
      case Match(n, text, subs) => [LineOf(n, text, subs)]
      case _ => []
  }

  /** There is one result per `end` record, and results already present stay. */
  lemma {:induction false} RunCountsEnds(st: State, recs: seq<Record>)
    ensures |Run(st, recs).results| == |st.results| + CountEnds(recs)
    ensures Run(st, recs).results[..|st.results|] == st.results
  {
    if recs != [] {
      var front := recs[..|recs| - 1];
      RunCountsEnds(st, front);
      var mid := Run(st, front);
      assert Run(st, recs) == Handle(mid, recs[|recs| - 1]);
      assert mid.results[..|st.results|] == st.results;
      assert Run(st, recs).results[..|mid.results|] == mid.results;
      assert Run(st, recs).results[..|st.results|] == mid.results[..|st.results|];
    }
  }

  /** Inside a file, context and match records only add lines: the path and
      the results stay as they were. */
  lemma {:induction false} RunBody(st: State, body: seq<Record>)
    requires forall k :: 0 <= k < |body| ==> InFile(body[k])
    ensures Run(st, body) == State(st.builder.(lines := st.builder.lines + LinesOf(body)), st.results)
  {
    if body == [] {
      assert st.builder.lines + [] == st.builder.lines;
    } else {
      var front := body[..|body| - 1];
      RunBody(st, front);
      assert st.builder.lines + LinesOf(front) + LinesOf(body)[|LinesOf(front)|..] == st.builder.lines + LinesOf(body);
    }
  }

  /** A `begin` ... `end` block appends exactly one file, with the block's path
      and the lines gathered before and inside the block, and empties the builder. */
  lemma RunFile(st: State, path: string, body: seq<Record>)
    requires forall k :: 0 <= k < |body| ==> InFile(body[k])
    ensures Run(st, [Begin(path)] + body + [End])
            == State(EmptyBuilder, st.results + [MatchedFile(path, st.builder.lines + LinesOf(body))])
  {
    var started := Handle(st, Begin(path));
    RecordStream.FoldOne(Handle, st, Begin(path));
    RecordStream.FoldConcat(Handle, st, [Begin(path)], body);
    RunBody(started, body);
    var inside := Run(st, [Begin(path)] + body);
    assert inside == State(started.builder.(lines := started.builder.lines + LinesOf(body)), st.results);
    RecordStream.FoldConcat(Handle, st, [Begin(path)] + body, [End]);
    RecordStream.FoldOne(Handle, inside, End);
  }

  /** The record ripgrep emits for a line: a `match` when it has submatches,
      a `context` line otherwise. */
  function RecordOf(l: Line): (r: Record)
    ensures InFile(r)
  {
    if l.submatches == [] then Context(l.num + 1, l.text) else Match(l.num + 1, l.text, l.submatches)
  }

  /** The records of one file: `begin`, one record per line, `end`. */
  function FileRecords(f: MatchedFile): (rs: seq<Record>)
    ensures |rs| == |f.lines| + 2
  {
    [Begin(f.filePath)] + RecordsOf(f.lines) + [End]
  }

  /** One record per line. */
  function RecordsOf(lines: seq<Line>): (rs: seq<Record>)
    ensures |rs| == |lines|
    ensures forall k :: 0 <= k < |lines| ==> rs[k] == RecordOf(lines[k]) && InFile(rs[k])
  {
    seq(|lines|, i requires 0 <= i < |lines| => RecordOf(lines[i]))
  }

  /** The records of a sequence of files, one block after another. */
  function Encode(files: seq<MatchedFile>): seq<Record> {
    if files == [] then [] else Encode(files[..|files| - 1]) + FileRecords(files[|files| - 1])
  }

  /** The lines of the records of some lines are those lines. */
  lemma {:induction false} LinesOfRecords(lines: seq<Line>)
    ensures LinesOf(RecordsOf(lines)) == lines
  {
    var recs := RecordsOf(lines);
    if lines != [] {
      var front := lines[..|lines| - 1];
      LinesOfRecords(front);
      assert recs[..|recs| - 1] == RecordsOf(front);
      assert lines == front + [lines[|lines| - 1]];
    }
  }

  /** One more file's records, after those of `front`, append that file. */
  lemma RunEncodeStep(front: seq<MatchedFile>, recs: seq<Record>, f: MatchedFile)
    requires Run(Initial, recs) == State(EmptyBuilder, front)
    ensures Run(Initial, recs + FileRecords(f)) == State(EmptyBuilder, front + [f])
  {
    RecordStream.FoldConcat(Handle, Initial, recs, FileRecords(f));
    RunFileRecords(State(EmptyBuilder, front), f);
  }

  /** Round trip: handling the records of some files from the initial state
      yields exactly those files, in order, and leaves the builder empty. */
  lemma {:induction false} RunEncode(files: seq<MatchedFile>)
    ensures Run(Initial, Encode(files)) == State(EmptyBuilder, files)
  {
    if files != [] {
      var front := files[..|files| - 1];
      var f := files[|files| - 1];
      RunEncode(front);
      assert Encode(files) == Encode(front) + FileRecords(f);
      RunEncodeStep(front, Encode(front), f);
      assert front + [f] == files;
    }
  }

  /** The records of one file, handled from an empty builder, append that file. */
  lemma RunFileRecords(st: State, f: MatchedFile)
    requires st.builder == EmptyBuilder
    ensures Run(st, FileRecords(f)) == State(EmptyBuilder, st.results + [f])
  {
    LinesOfRecords(f.lines);
    RunFile(st, f.filePath, RecordsOf(f.lines));
    assert [] + LinesOf(RecordsOf(f.lines)) == f.lines;
  }

  /** The worker thread: the reading loop with `handle_command` as its handler,
      from an empty builder and no results. Returns the results vector. */
  method Work(chunks: seq<string>, decode: string -> Record) returns (results: seq<MatchedFile>)
    ensures |results| == CountEnds(RecordStream.DecodeAll(decode, RecordStream.SplitRecords(RecordStream.Received(chunks))))
    ensures results == Run(Initial, RecordStream.DecodeAll(decode, RecordStream.SplitRecords(RecordStream.Received(chunks)))).results
  {
    var records, st := RecordStream.Drive(chunks, decode, Handle, Initial);
    RunCountsEnds(Initial, RecordStream.DecodeAll(decode, records));
    results := st.results;
  }
}
