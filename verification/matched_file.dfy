/** The older match model of `src/matched_file.rs`: a `Match` holds one range
    into its line, a `Line` is a context line or a match, and a `MatchedFile`
    is the lines found in one file. */
module MatchModel {
  import opened Strings

  datatype MatchType = Arbitrary | Package | FqcnIdent | FqcnFull

  datatype Match = Match(matchType: MatchType, lineNum: nat, matchRange: Range, value: string)

  /** `Line::Context` or `Line::Match` */
  datatype Line = Context(lineNum: nat, value: string) | MatchLine(m: Match)

  datatype MatchedFile = MatchedFile(filePath: string, lines: seq<Line>)

  /** The range lies within the line, so slicing around it does not panic. */
  predicate InRange(m: Match) {
    InBounds(m.matchRange, m.value)
  }

  /** `Match::before` */
  function Before(m: Match): (s: string)
    requires InRange(m)
    ensures |s| == m.matchRange.start
  {
    m.value[..m.matchRange.start]
  }

  /** `Match::middle` */
  function Middle(m: Match): (s: string)
    requires InRange(m)
    ensures |s| == m.matchRange.end - m.matchRange.start
  {
    m.value[m.matchRange.start..m.matchRange.end]
  }

  /** `Match::after` */
  function After(m: Match): (s: string)
    requires InRange(m)
    ensures |s| == |m.value| - m.matchRange.end
  {
    m.value[m.matchRange.end..]
  }

  /** The three slices put back together are the line. */
  lemma BeforeMiddleAfter(m: Match)
    requires InRange(m)
    ensures Before(m) + Middle(m) + After(m) == m.value
  {
  }

  /** `Match::replace`: the text before and after the range is kept, the
      range now covers the replacement, and the range start, match type and
      line number are unchanged. `Match::replace` computes the new end as the old
      end moved by the change in line length. */
  function Replace(m: Match, replacer: string -> string): (r: Match)
    requires InRange(m)
    ensures InRange(r)
    ensures Before(r) == Before(m)
    ensures Middle(r) == replacer(Middle(m))
    ensures After(r) == After(m)
    ensures r.matchRange.start == m.matchRange.start
    ensures r.matchRange.end - r.matchRange.start == |replacer(Middle(m))|
    ensures r.matchType == m.matchType && r.lineNum == m.lineNum
  {
    var newValue := Before(m) + replacer(Middle(m)) + After(m);
    var delta := |newValue| - |m.value|;
    var newEnd := m.matchRange.end + delta;
    var r := Match(m.matchType, m.lineNum, Range(m.matchRange.start, newEnd), newValue);
    assert Before(r) == newValue[..m.matchRange.start];
    r
  }

  /** `Line::line_num` */
  function LineNum(l: Line): nat {
    match l
    case Context(n, _) => n
    case MatchLine(m) => m.lineNum
  }

  predicate LineInRange(l: Line) {
    l.MatchLine? ==> InRange(l.m)
  }

  /** `Line::replace`: context lines are copied, match lines are replaced. */
  function ReplaceLine(l: Line, replacer: string -> string): (r: Line)
    requires LineInRange(l)
    ensures LineNum(r) == LineNum(l)
    ensures l.Context? ==> r == l
    ensures l.MatchLine? ==> r.MatchLine? && InRange(r.m)
    ensures l.MatchLine? ==> Before(r.m) == Before(l.m) && After(r.m) == After(l.m)
    ensures l.MatchLine? ==> Middle(r.m) == replacer(Middle(l.m))
  {
    match l
    case Context(n, v) => Context(n, v)
    case MatchLine(m) => MatchLine(Replace(m, replacer))
  }

  /** `MatchedFile::matches`: the match lines, in order. */
  function Matches(lines: seq<Line>): (ms: seq<Match>)
    ensures |ms| <= |lines|
    ensures forall m :: m in ms <==> MatchLine(m) in lines
  {
    if lines == [] then []
    else
      var rest := Matches(lines[1..]);
      assert forall m :: MatchLine(m) in lines <==> lines[0] == MatchLine(m) || MatchLine(m) in lines[1..];
      match lines[0]
      case Context(_, _) => rest
      case MatchLine(m) => [m] + rest
  }

  /** `matches` keeps the order of the lines: it distributes over concatenation. */
  lemma {:induction false} MatchesAppend(a: seq<Line>, b: seq<Line>)
    ensures Matches(a + b) == Matches(a) + Matches(b)
  {
    if a == [] {
      assert a + b == b;
    } else {
      assert (a + b)[0] == a[0];
      assert (a + b)[1..] == a[1..] + b;
      MatchesAppend(a[1..], b);
    }
  }

  /** Context lines contribute nothing to `matches`. */
  lemma {:induction false} MatchesSkipContext(lines: seq<Line>)
    requires forall i :: 0 <= i < |lines| ==> lines[i].Context?
    ensures Matches(lines) == []
  {
    if lines != [] {
      MatchesSkipContext(lines[1..]);
    }
  }

  /** Every match line of `lines` is in range. */
  predicate AllInRange(lines: seq<Line>) {
    forall i :: 0 <= i < |lines| ==> LineInRange(lines[i])
  }

  /** Mutating through `MatchedFile::matches_mut`: each match is replaced
      by `update` of it, context lines stay as they are. */
  function UpdateMatches(lines: seq<Line>, update: Match --> Match): (r: seq<Line>)
    requires forall i :: 0 <= i < |lines| && lines[i].MatchLine? ==> update.requires(lines[i].m)
    ensures |r| == |lines|
    ensures forall i :: 0 <= i < |lines| && lines[i].Context? ==> r[i] == lines[i]
    ensures forall i :: 0 <= i < |lines| && lines[i].MatchLine? ==> r[i] == MatchLine(update(lines[i].m))
  {
    seq(|lines|, i requires 0 <= i < |lines| =>
      match lines[i]
      case Context(_, _) => lines[i]
      case MatchLine(m) => MatchLine(update(m)))
  }

  /** The matches seen after `matches_mut` are the updated matches, in the same order. */
  lemma {:induction false} MatchesOfUpdate(lines: seq<Line>, update: Match --> Match)
    requires forall i :: 0 <= i < |lines| && lines[i].MatchLine? ==> update.requires(lines[i].m)
    ensures |Matches(UpdateMatches(lines, update))| == |Matches(lines)|
    ensures forall i :: 0 <= i < |Matches(lines)| ==>
              update.requires(Matches(lines)[i]) && Matches(UpdateMatches(lines, update))[i] == update(Matches(lines)[i])
  {
    if lines != [] {
      var tail := lines[1..];
      MatchesOfUpdate(tail, update);
      var r := UpdateMatches(lines, update);
      var ms, rs := Matches(lines), Matches(UpdateMatches(tail, update));
      assert r[1..] == UpdateMatches(tail, update);
      if lines[0].MatchLine? {
        assert ms == [lines[0].m] + Matches(tail);
        assert Matches(r) == [update(lines[0].m)] + rs;
        forall i | 0 <= i < |ms|
          ensures update.requires(ms[i]) && Matches(r)[i] == update(ms[i])
        {
          if i > 0 {
            assert ms[i] == Matches(tail)[i - 1];
          }
        }
      } else {
        assert ms == Matches(tail);
        assert Matches(r) == rs;
      }
    }
  }

  /** `MatchedFile::replace`: same path, one replaced line per line, in order. */
  function ReplaceFile(f: MatchedFile, replacer: string -> string): (r: MatchedFile)
    requires AllInRange(f.lines)
    ensures r.filePath == f.filePath
    ensures |r.lines| == |f.lines|
    ensures forall i :: 0 <= i < |f.lines| ==> LineNum(r.lines[i]) == LineNum(f.lines[i])
    ensures forall i :: 0 <= i < |f.lines| && f.lines[i].Context? ==> r.lines[i] == f.lines[i]
    ensures forall i :: 0 <= i < |f.lines| && f.lines[i].MatchLine? ==>
              && r.lines[i].MatchLine? && InRange(r.lines[i].m)
              && Before(r.lines[i].m) == Before(f.lines[i].m)
              && Middle(r.lines[i].m) == replacer(Middle(f.lines[i].m))
              && After(r.lines[i].m) == After(f.lines[i].m)
  {
    MatchedFile(f.filePath, seq(|f.lines|, i requires 0 <= i < |f.lines| => ReplaceLine(f.lines[i], replacer)))
  }

  /** The example of the unit test in `src/matched_file.rs`: range 3..6 over "0123456789",
      then replacing the middle by "bar" and by "foosmaz". */
  lemma SlicingExample()
    ensures var m := Match(Arbitrary, 10, Range(3, 6), "0123456789");
            && Before(m) == "012" && Middle(m) == "345" && After(m) == "6789"
            && Before(Replace(m, _ => "bar")) == "012"
            && Middle(Replace(m, _ => "bar")) == "bar"
            && After(Replace(m, _ => "bar")) == "6789"
            && Before(Replace(m, _ => "foosmaz")) == "012"
            && Middle(Replace(m, _ => "foosmaz")) == "foosmaz"
            && After(Replace(m, _ => "foosmaz")) == "6789"
  {
  }
}
