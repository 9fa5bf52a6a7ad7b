/** The older ripgrep worker of `src/rg_worker_thread.rs`: lines are the
    older `Line::Context` / `Line::Match` of `src/matched_file.rs`, a match
    record contributes only its first submatch, and line numbers are stored
    as ripgrep gives them. */
module RgWorkerThread {
  import opened Strings
  import opened RgMessage
  import opened MatchModel
  import RecordStream

  /** The file in progress and the shared results vector. A match record
      without submatches makes `handle_command` panic, which ends the worker
      thread: `panicked` records that, and no later record has any effect. */
  datatype State = State(inProgress: MatchedFile, results: seq<MatchedFile>, panicked: bool)

  /** `MatchedFile::default()` */
  const EmptyFile := MatchedFile("", [])

  const Initial := State(EmptyFile, [], false)

  /** `push_context`: a match line of type `Arbitrary` when a range is given,
      a context line otherwise; the line number is kept as given. */
  function PushLine(f: MatchedFile, n: LineNumber, text: string, range: Option<Range>): (r: MatchedFile)
    ensures r.filePath == f.filePath && |r.lines| == |f.lines| + 1 && r.lines[..|f.lines|] == f.lines
    ensures LineNum(r.lines[|f.lines|]) == n
  {
    var line := match range
      case Some(rg) => MatchLine(MatchModel.Match(Arbitrary, n, rg, text))
      case None => MatchModel.Context(n, text);
    f.(lines := f.lines + [line])
  }

  /** `handle_command` for one record. Results grow only at `end`, by one file,
      and only while the worker is alive. */
  function Handle(st: State, rec: Record): (r: State)
    ensures st.panicked ==> r == st
    ensures r.panicked <==> st.panicked || (rec.Match? && rec.submatches == [])
    ensures |r.results| == |st.results| + (if rec.End? && !st.panicked then 1 else 0)
    ensures r.results[..|st.results|] == st.results
  {
    if st.panicked then st
    else
      match rec
      case Begin(path) => st.(inProgress := st.inProgress.(filePath := path))
      case End => State(EmptyFile, st.results + [st.inProgress], false)
      case Context(n, text) => st.(inProgress := PushLine(st.inProgress, n, text, None))
      case Match(n, text, subs) =>
        if subs == [] then st.(panicked := true)
        else st.(inProgress := PushLine(st.inProgress, n, text, Some(subs[0])))
      case Other => st
  }

  /** Handling a sequence of records, in order. */
  function Run(st: State, recs: seq<Record>): State {
    RecordStream.Fold(Handle, st, recs)
  }

  /** Once the worker has panicked, nothing changes: the results are those
      pushed before the panic. */
  lemma {:induction false} PanicFreezes(st: State, recs: seq<Record>)
    requires st.panicked
    ensures Run(st, recs) == st
  {
    if recs != [] {
      PanicFreezes(st, recs[..|recs| - 1]);
    }
  }

  /** A record with no submatch array entries stops the worker: whatever
      follows is ignored. */
  lemma EmptyMatchStops(st: State, before: seq<Record>, n: LineNumber, text: string, after: seq<Record>)
    ensures Run(st, before + [Record.Match(n, text, [])] + after).results == Run(st, before).results
    ensures Run(st, before + [Record.Match(n, text, [])] + after).panicked
  {
    var mid := Run(st, before);
    RecordStream.FoldConcat(Handle, st, before, [Record.Match(n, text, [])]);
    RecordStream.FoldOne(Handle, mid, Record.Match(n, text, []));
    var stopped := Handle(mid, Record.Match(n, text, []));
    assert stopped.results == mid.results by {
      if !mid.panicked {
        assert stopped == mid.(panicked := true);
      }
    }
    RecordStream.FoldConcat(Handle, st, before + [Record.Match(n, text, [])], after);
    PanicFreezes(stopped, after);
  }

  /** While the worker is alive there is one result per `end` record, and
      results already present stay. */
  lemma {:induction false} RunCountsEnds(st: State, recs: seq<Record>)
    requires !Run(st, recs).panicked
    ensures |Run(st, recs).results| == |st.results| + CountEnds(recs)
    ensures Run(st, recs).results[..|st.results|] == st.results
  {
    if recs != [] {
      var front := recs[..|recs| - 1];
      var mid := Run(st, front);
      assert Run(st, recs) == Handle(mid, recs[|recs| - 1]);
      RunCountsEnds(st, front);
      assert Run(st, recs).results[..|mid.results|] == mid.results;
      assert Run(st, recs).results[..|st.results|] == mid.results[..|st.results|];
    }
  }

  /** The line a record inside a file contributes, if any. A match keeps only
      its first submatch. */
  function LinesOf(recs: seq<Record>): seq<Line> {
    if recs == [] then []
    else
      LinesOf(recs[..|recs| - 1]) +
      match recs[|recs| - 1]
      case Context(n, text) => [MatchModel.Context(n, text)]
      case Match(n, text, subs) => if subs == [] then [] else [MatchLine(MatchModel.Match(Arbitrary, n, subs[0], text))]
      case _ => []
  }

  /** Records inside a file that the worker survives: no empty submatch array. */
  predicate Survivable(rec: Record) {
    InFile(rec) && (rec.Match? ==> rec.submatches != [])
  }

  /** Inside a file, context and match records only add lines. */
  lemma {:induction false} RunBody(st: State, body: seq<Record>)
    requires !st.panicked
    requires forall k :: 0 <= k < |body| ==> Survivable(body[k])
    ensures Run(st, body) == st.(inProgress := st.inProgress.(lines := st.inProgress.lines + LinesOf(body)))
  {
    if body == [] {
      assert st.inProgress.lines + [] == st.inProgress.lines;
    } else {
      var front := body[..|body| - 1];
      RunBody(st, front);
      assert st.inProgress.lines + LinesOf(front) + LinesOf(body)[|LinesOf(front)|..] == st.inProgress.lines + LinesOf(body);
    }
  }

  /** A `begin` ... `end` block appends one file with the block's path and the
      lines gathered before and inside it. `begin` overwrites only the path, so
      lines left over from before the block are kept. */
  lemma RunFile(st: State, path: string, body: seq<Record>)
    requires !st.panicked
    requires forall k :: 0 <= k < |body| ==> Survivable(body[k])
    ensures Run(st, [Begin(path)] + body + [End])
            == State(EmptyFile, st.results + [MatchedFile(path, st.inProgress.lines + LinesOf(body))], false)
  {
    var started := Handle(st, Begin(path));
    RecordStream.FoldOne(Handle, st, Begin(path));
    RecordStream.FoldConcat(Handle, st, [Begin(path)], body);
    RunBody(started, body);
    var inside := Run(st, [Begin(path)] + body);
    assert inside == started.(inProgress := started.inProgress.(lines := started.inProgress.lines + LinesOf(body)));
    RecordStream.FoldConcat(Handle, st, [Begin(path)] + body, [End]);
    RecordStream.FoldOne(Handle, inside, End);
  }

  /** A match record with several submatches yields one match line holding
      the first range only. */
  lemma FirstSubmatchOnly(st: State, n: LineNumber, text: string, subs: seq<Range>)
    requires !st.panicked && |subs| > 0
    ensures var r := Handle(st, Record.Match(n, text, subs));
            && r.inProgress.lines == st.inProgress.lines + [MatchLine(MatchModel.Match(Arbitrary, n, subs[0], text))]
            && r.results == st.results && !r.panicked
  {
  }

  /** A line the older worker can have produced: its number is a ripgrep line
      number and a match is of type `Arbitrary`. */
  predicate FromRipgrep(l: Line) {
    LineNum(l) >= 1 && (l.MatchLine? ==> l.m.matchType == Arbitrary)
  }

  /** The record ripgrep emits for such a line. */
  function RecordOf(l: Line): (r: Record)
    requires FromRipgrep(l)
    ensures Survivable(r)
  {
    match l
    case Context(n, v) => Record.Context(n, v)
    case MatchLine(m) => Record.Match(m.lineNum, m.value, [m.matchRange])
  }

  /** One record per line. */
  function RecordsOf(lines: seq<Line>): (rs: seq<Record>)
    requires forall k :: 0 <= k < |lines| ==> FromRipgrep(lines[k])
    ensures |rs| == |lines|
    ensures forall k :: 0 <= k < |lines| ==> rs[k] == RecordOf(lines[k]) && Survivable(rs[k])
  {
    seq(|lines|, i requires 0 <= i < |lines| => RecordOf(lines[i]))
  }

  /** A file the older worker can have produced. */
  predicate FileFromRipgrep(f: MatchedFile) {
    forall k :: 0 <= k < |f.lines| ==> FromRipgrep(f.lines[k])
  }

  /** The records of one file: `begin`, one record per line, `end`. */
  function FileRecords(f: MatchedFile): (rs: seq<Record>)
    requires FileFromRipgrep(f)
    ensures |rs| == |f.lines| + 2
  {
    [Begin(f.filePath)] + RecordsOf(f.lines) + [End]
  }

  /** The records of a sequence of files, one block after another. */
  function Encode(files: seq<MatchedFile>): seq<Record>
    requires forall i :: 0 <= i < |files| ==> FileFromRipgrep(files[i])
  {
    if files == [] then [] else Encode(files[..|files| - 1]) + FileRecords(files[|files| - 1])
  }

  /** The lines of the records of some lines are those lines. */
  lemma {:induction false} LinesOfRecords(lines: seq<Line>)
    requires forall k :: 0 <= k < |lines| ==> FromRipgrep(lines[k])
    ensures LinesOf(RecordsOf(lines)) == lines
  {
    var recs := RecordsOf(lines);
    if lines != [] {
      var front := lines[..|lines| - 1];
      LinesOfRecords(front);
      assert recs[..|recs| - 1] == RecordsOf(front);
      assert lines == front + [lines[|lines| - 1]];
    }
  }

  /** The records of one file, handled from an empty file in progress, append that file. */
  lemma RunFileRecords(st: State, f: MatchedFile)
    requires st.inProgress == EmptyFile && !st.panicked && FileFromRipgrep(f)
    ensures Run(st, FileRecords(f)) == State(EmptyFile, st.results + [f], false)
  {
    LinesOfRecords(f.lines);
    RunFile(st, f.filePath, RecordsOf(f.lines));
    assert [] + LinesOf(RecordsOf(f.lines)) == f.lines;
  }

  /** One more file's records, after those of `front`, append that file. */
  lemma RunEncodeStep(front: seq<MatchedFile>, recs: seq<Record>, f: MatchedFile)
    requires FileFromRipgrep(f)
    requires Run(Initial, recs) == State(EmptyFile, front, false)
    ensures Run(Initial, recs + FileRecords(f)) == State(EmptyFile, front + [f], false)
  {
    RecordStream.FoldConcat(Handle, Initial, recs, FileRecords(f));
    RunFileRecords(State(EmptyFile, front, false), f);
  }

  /** Round trip: handling the records of some files from the initial state
      yields exactly those files, in order. */
  lemma {:induction false} RunEncode(files: seq<MatchedFile>)
    requires forall i :: 0 <= i < |files| ==> FileFromRipgrep(files[i])
    ensures Run(Initial, Encode(files)) == State(EmptyFile, files, false)
  {
    if files != [] {
      var front := files[..|files| - 1];
      var f := files[|files| - 1];
      RunEncode(front);
      assert Encode(files) == Encode(front) + FileRecords(f);
      RunEncodeStep(front, Encode(front), f);
      assert front + [f] == files;
    }
  }

  /** The worker thread: the reading loop with `handle_command` as its handler.
      Returns the results vector as it stands when the thread ends. */
  method Work(chunks: seq<string>, decode: string -> Record) returns (results: seq<MatchedFile>)
    ensures results == Run(Initial, RecordStream.DecodeAll(decode, RecordStream.SplitRecords(RecordStream.Received(chunks)))).results
    ensures var recs := RecordStream.DecodeAll(decode, RecordStream.SplitRecords(RecordStream.Received(chunks)));
            !Run(Initial, recs).panicked ==> |results| == CountEnds(recs)
  {
    var records, st := RecordStream.Drive(chunks, decode, Handle, Initial);
    if !st.panicked {
      RunCountsEnds(Initial, RecordStream.DecodeAll(decode, records));
    }
    results := st.results;
  }
}
