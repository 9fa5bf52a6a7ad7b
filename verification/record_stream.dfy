/** The record-splitting loop shared by both ripgrep workers
    (`worker_impl_factory` in `src/rg_worker.rs` and `src/rg_worker_thread.rs`):
    text read from ripgrep's standard output is cut into newline-terminated
    records, each non-empty record is decoded and handed to a handler, and at
    end of file whatever is left in the buffer becomes one last record.

    The stream is a sequence of already-decoded chunks, one per `read`; an
    empty chunk is `read` returning 0, and running out of chunks is treated the
    same way. */
module RecordStream {
  import opened Strings

  /** The index of the chunk at which the stream ends: the first empty chunk,
      or the number of chunks when none is empty. */
  function EofIndex(chunks: seq<string>): (r: nat)
    ensures r <= |chunks|
    ensures forall k :: 0 <= k < r ==> chunks[k] != []
    ensures r < |chunks| ==> chunks[r] == []
  {
    if chunks == [] || chunks[0] == [] then 0
    else
      var rest := EofIndex(chunks[1..]);
      assert forall k :: 1 <= k < rest + 1 ==> chunks[k] == chunks[1..][k - 1];
      rest + 1
  }

  /** All text read before end of file. */
  function Received(chunks: seq<string>): string {
    Concat(chunks[..EofIndex(chunks)])
  }

  /** A complete record: text up to and including the first newline. */
  predicate IsLine(r: string) {
    |r| > 0 && r[|r| - 1] == '\n' && '\n' !in r[..|r| - 1]
  }

  /** How the loop cuts the whole received text: at each newline, keeping the
      newline with the record before it, and the text after the last newline
      as a final record when it is not empty. */
  function SplitRecords(t: string): seq<string>
    decreases |t|
  {
    match FindChar(t, '\n')
    case None => if t == [] then [] else [t]
    case Some(p) => [t[..p + 1]] + SplitRecords(t[p + 1..])
  }

  /** No record is empty and all but the last are complete lines. */
  predicate WellSplit(rs: seq<string>) {
    && (forall i :: 0 <= i < |rs| ==> rs[i] != [])
    && (forall i :: 0 <= i < |rs| - 1 ==> IsLine(rs[i]))
  }

  lemma WellSplitCons(head: string, rest: seq<string>)
    requires IsLine(head) && WellSplit(rest)
    ensures WellSplit([head] + rest)
  {
    assert forall i :: 1 <= i < |rest| + 1 ==> ([head] + rest)[i] == rest[i - 1];
  }

  lemma ConcatCons(head: string, rest: seq<string>)
    ensures Concat([head] + rest) == head + Concat(rest)
  {
    assert ([head] + rest)[1..] == rest;
  }

  /** The text up to and including the first newline is a complete line. */
  lemma FirstLine(t: string, p: nat)
    requires FindChar(t, '\n') == Some(p)
    ensures IsLine(t[..p + 1]) && t[..p + 1] + t[p + 1..] == t
  {
    assert t[..p + 1][..p] == t[..p];
  }

  /** The records put back together are the text; none is empty; all but the
      last are complete lines; and a text without a newline is one record. */
  lemma {:induction false} SplitRecordsCover(t: string)
    ensures Concat(SplitRecords(t)) == t
    ensures WellSplit(SplitRecords(t))
    ensures '\n' !in t ==> SplitRecords(t) == if t == [] then [] else [t]
    decreases |t|
  {
    match FindChar(t, '\n')
    case None =>
      if t != [] {
        ConcatCons(t, []);
      }
    case Some(p) =>
      var head := t[..p + 1];
      SplitRecordsCover(t[p + 1..]);
      FirstLine(t, p);
      ConcatCons(head, SplitRecords(t[p + 1..]));
      WellSplitCons(head, SplitRecords(t[p + 1..]));
  }

  /** `find` reports the first occurrence of the character. */
  lemma {:induction false} FindCharFirst(s: string, c: char, i: nat)
    requires i < |s| && s[i] == c && c !in s[..i]
    ensures FindChar(s, c) == Some(i)
  {
    if i > 0 {
      assert s[0] in s[..i];
      assert s[1..][..i - 1] == s[1..i];
      assert c !in s[1..][..i - 1] by { assert s[..i] == [s[0]] + s[1..i]; }
      FindCharFirst(s[1..], c, i - 1);
    }
  }

  /** `find('\n')` on a text that starts with a complete record stops at the
      end of that record. */
  lemma FindCharAfterLine(line: string, more: string)
    requires IsLine(line)
    ensures FindChar(line + more, '\n') == Some(|line| - 1)
  {
    var t := line + more;
    assert t[..|line| - 1] == line[..|line| - 1];
    FindCharFirst(t, '\n', |line| - 1);
  }

  /** Splitting undoes concatenation: complete records followed by a
      newline-free tail split back into those records and the tail. */
  lemma {:induction false} SplitAfterLines(records: seq<string>, tail: string)
    requires AllLines(records)
    requires '\n' !in tail
    ensures SplitRecords(Concat(records) + tail) == records + (if tail == [] then [] else [tail])
  {
    if records != [] {
      var line := records[0];
      var more := Concat(records[1..]) + tail;
      ConcatCons(line, records[1..]);
      assert records == [line] + records[1..];
      assert Concat(records) + tail == line + more;
      SplitAfterFirst(line, more);
      SplitAfterLines(records[1..], tail);
      var last := if tail == [] then [] else [tail];
      assert records + last == [line] + (records[1..] + last);
    } else {
      assert Concat(records) + tail == tail;
      SplitRecordsCover(tail);
    }
  }

  /** A complete line at the front of the text is the first record. */
  lemma SplitAfterFirst(line: string, more: string)
    requires IsLine(line)
    ensures SplitRecords(line + more) == [line] + SplitRecords(more)
  {
    FindCharAfterLine(line, more);
    assert (line + more)[..|line|] == line;
    assert (line + more)[|line|..] == more;
  }

  /** A handler applied to records in order, left to right. */
  function Fold<R, S>(step: (S, R) -> S, init: S, rs: seq<R>): S
    decreases |rs|
  {
    if rs == [] then init else step(Fold(step, init, rs[..|rs| - 1]), rs[|rs| - 1])
  }

  /** Folding over one record is one step. */
  lemma FoldOne<R, S>(step: (S, R) -> S, init: S, r: R)
    ensures Fold(step, init, [r]) == step(init, r)
  {
    assert [r][..0] == [];
  }

  /** Folding over two pieces is folding over the second from where the first left off. */
  lemma {:induction false} FoldConcat<R, S>(step: (S, R) -> S, init: S, a: seq<R>, b: seq<R>)
    ensures Fold(step, init, a + b) == Fold(step, Fold(step, init, a), b)
    decreases |b|
  {
    if b == [] {
      assert a + b == a;
    } else {
      assert (a + b)[..|a + b| - 1] == a + b[..|b| - 1];
      FoldConcat(step, init, a, b[..|b| - 1]);
    }
  }

  /** Every record decoded, in order. */
  function DecodeAll<R>(decode: string -> R, rs: seq<string>): (ds: seq<R>)
    ensures |ds| == |rs|
    ensures forall i :: 0 <= i < |rs| ==> ds[i] == decode(rs[i])
  {
    seq(|rs|, i requires 0 <= i < |rs| => decode(rs[i]))
  }

  /** One step of the handler on a record, as the loop performs it. */
  lemma FoldStep<R, S>(step: (S, R) -> S, init: S, decode: string -> R, records: seq<string>, command: string)
    ensures Fold(step, init, DecodeAll(decode, records + [command]))
            == step(Fold(step, init, DecodeAll(decode, records)), decode(command))
  {
    assert DecodeAll(decode, records + [command])[..|records|] == DecodeAll(decode, records);
  }

  /** Every record is a complete line. */
  predicate AllLines(records: seq<string>) {
    forall k :: 0 <= k < |records| ==> IsLine(records[k])
  }

  lemma AllLinesAppend(records: seq<string>, r: string)
    requires AllLines(records) && IsLine(r)
    ensures AllLines(records + [r])
  {
  }

  /** Cutting the buffer after its first newline gives a complete line and the rest. */
  lemma CutLine(buf: string, records: seq<string>, p: nat)
    requires FindChar(buf, '\n') == Some(p)
    ensures IsLine(buf[..p + 1])
    ensures Concat(records + [buf[..p + 1]]) + buf[p + 1..] == Concat(records) + buf
  {
    FirstLine(buf, p);
    ConcatAppend(records, buf[..p + 1]);
  }

  /** The text read after one more chunk. */
  lemma ReadChunk(chunks: seq<string>, i: nat)
    requires i < |chunks|
    ensures Concat(chunks[..i + 1]) == Concat(chunks[..i]) + chunks[i]
  {
    assert chunks[..i + 1] == chunks[..i] + [chunks[i]];
    ConcatAppend(chunks[..i], chunks[i]);
  }

  /** The inner loop before end of file: hand on every complete record in the
      buffer and keep the text after the last newline. */
  method TakeLines<R, S>(buf: string, records: seq<string>, state: S,
                         decode: string -> R, step: (S, R) -> S, ghost init: S)
    returns (buf': string, records': seq<string>, state': S)
    requires AllLines(records)
    requires state == Fold(step, init, DecodeAll(decode, records))
    ensures Concat(records') + buf' == Concat(records) + buf
    ensures AllLines(records')
    ensures '\n' !in buf'
    ensures state' == Fold(step, init, DecodeAll(decode, records'))
  {
    buf', records', state' := buf, records, state;
    while true
      invariant Concat(records') + buf' == Concat(records) + buf
      invariant AllLines(records')
      invariant state' == Fold(step, init, DecodeAll(decode, records'))
      decreases |buf'|
    {
      match FindChar(buf', '\n')
      case None =>
        break;
      case Some(p) =>
        var command := buf'[..p + 1];
        CutLine(buf', records', p);
        AllLinesAppend(records', command);
        FoldStep(step, init, decode, records', command);
        records' := records' + [command];
        state' := step(state', decode(command));
        buf' := buf'[p + 1..];
        if buf' == [] {
          break;
        }
    }
  }

  /** The reading loop: returns the records it handed on and the handler state
      after them. Before end of file each record ends at, and includes, the
      first newline in the buffer, and text with no newline waits for more
      input; at end of file the remaining buffer is the last record (the inner
      loop then runs once); empty records are never decoded. */
  method Drive<R, S>(chunks: seq<string>, decode: string -> R, step: (S, R) -> S, init: S)
    returns (records: seq<string>, state: S)
    ensures records == SplitRecords(Received(chunks))
    ensures state == Fold(step, init, DecodeAll(decode, records))
  {
    var buf: string := [];
    var i := 0;
    records := [];
    state := init;
    while true
      invariant i <= EofIndex(chunks)
      invariant Concat(chunks[..i]) == Concat(records) + buf
      invariant AllLines(records)
      invariant '\n' !in buf
      invariant state == Fold(step, init, DecodeAll(decode, records))
      decreases EofIndex(chunks) - i
    {
      var chunk := if i < |chunks| then chunks[i] else [];
      if chunk == [] {
        records, state := Flush(chunks, i, buf, records, state, decode, step, init);
        break;
      }
      ReadChunk(chunks, i);
      AppendAssoc(Concat(records), buf, chunk);
      buf, records, state := TakeLines(buf + chunk, records, state, decode, step, init);
      i := i + 1;
    }
  }

  /** The end-of-file pass: the remaining buffer, when not empty, is the last record. */
  method Flush<R, S>(chunks: seq<string>, i: nat, buf: string, records: seq<string>, state: S,
                     decode: string -> R, step: (S, R) -> S, ghost init: S)
    returns (records': seq<string>, state': S)
    requires i <= EofIndex(chunks) && (i < |chunks| ==> chunks[i] == [])
    requires Concat(chunks[..i]) == Concat(records) + buf
    requires AllLines(records) && '\n' !in buf
    requires state == Fold(step, init, DecodeAll(decode, records))
    ensures records' == SplitRecords(Received(chunks))
    ensures state' == Fold(step, init, DecodeAll(decode, records'))
  {
    assert i == EofIndex(chunks);
    SplitAfterLines(records, buf);
    records', state' := records, state;
    if buf != [] {
      FoldStep(step, init, decode, records, buf);
      state' := step(state, decode(buf));
      records' := records + [buf];
    }
  }
}
