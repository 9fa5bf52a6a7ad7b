/** The newer line model used by `src/fqcn_processor.rs` and `src/rg_worker.rs`:
    a line is its text and an ordered list of submatch ranges into it, shown
    as alternating unmatched and matched spans. The file that defines this
    `Line` is not part of this model; it is modelled from its uses
    (`Line::new`, `value`, `iter`, `adjust_submatches`) and from the unit tests
    of the FQCN processor. */
module LineModel {
  import opened Strings

  datatype Line = Line(num: nat, text: string, submatches: seq<Range>)

  datatype MatchedFile = MatchedFile(filePath: string, lines: seq<Line>)

  /** One item of `Line::iter`: `(is_match, text)`. */
  datatype Span = Span(isMatch: bool, text: string)

  /** Each range is non-empty, starts at or after `lo` (for all but the first:
      at or after the end of the one before) and ends by `hi`. */
  predicate SortedWithin(subs: seq<Range>, lo: nat, hi: nat)
    decreases |subs|
  {
    subs == [] || (lo <= subs[0].start < subs[0].end <= hi && SortedWithin(subs[1..], subs[0].end, hi))
  }

  /** The submatch invariant of a line: non-empty, sorted, non-overlapping, in bounds. */
  predicate WellFormed(l: Line) {
    SortedWithin(l.submatches, 0, |l.text|)
  }

  /** A sorted list is in bounds: every range can be sliced out of the text. */
  lemma {:induction false} SortedWithinInBounds(subs: seq<Range>, lo: nat, hi: nat)
    requires SortedWithin(subs, lo, hi)
    ensures forall i :: 0 <= i < |subs| ==> lo <= subs[i].start < subs[i].end <= hi
    ensures forall i, j :: 0 <= i < j < |subs| ==> subs[i].end <= subs[j].start
    decreases |subs|
  {
    if subs != [] {
      SortedWithinInBounds(subs[1..], subs[0].end, hi);
      assert forall i :: 1 <= i < |subs| ==> subs[i] == subs[1..][i - 1];
    }
  }

  /** Every range of `subs` lies in `text`. */
  predicate AllInBounds(subs: seq<Range>, text: string) {
    forall i :: 0 <= i < |subs| ==> InBounds(subs[i], text)
  }

  /** The spans of `text` from `pos` on, given the submatches still ahead. */
  function SpansFrom(text: string, subs: seq<Range>, pos: nat): (spans: seq<Span>)
    requires pos <= |text| && SortedWithin(subs, pos, |text|)
    ensures forall i :: 0 <= i < |spans| ==> spans[i].text != []
    ensures forall i :: 0 <= i < |spans| - 1 ==> spans[i].isMatch || spans[i + 1].isMatch
    decreases |subs|
  {
    if subs == [] then
      if pos < |text| then [Span(false, text[pos..])] else []
    else
      var s := subs[0];
      var gap := if pos < s.start then [Span(false, text[pos..s.start])] else [];
      gap + [Span(true, text[s.start..s.end])] + SpansFrom(text, subs[1..], s.end)
  }

  /** `Line::iter`: never an empty span, never two unmatched spans in a row. */
  function Spans(l: Line): (spans: seq<Span>)
    requires WellFormed(l)
    ensures forall i :: 0 <= i < |spans| ==> spans[i].text != []
    ensures forall i :: 0 <= i < |spans| - 1 ==> spans[i].isMatch || spans[i + 1].isMatch
  {
    SpansFrom(l.text, l.submatches, 0)
  }

  /** The texts of the spans, joined. */
  function Join(spans: seq<Span>): string {
    if spans == [] then [] else spans[0].text + Join(spans[1..])
  }

  /** The texts of the matched spans, in order. */
  function MatchedTexts(spans: seq<Span>): seq<string> {
    if spans == [] then []
    else (if spans[0].isMatch then [spans[0].text] else []) + MatchedTexts(spans[1..])
  }

  /** The text under each submatch, in order. */
  function SubmatchTexts(text: string, subs: seq<Range>): (ts: seq<string>)
    requires forall i :: 0 <= i < |subs| ==> InBounds(subs[i], text)
    ensures |ts| == |subs|
  {
    seq(|subs|, i requires 0 <= i < |subs| => Slice(text, subs[i]))
  }

  lemma JoinAppend(a: seq<Span>, b: seq<Span>)
    ensures Join(a + b) == Join(a) + Join(b)
  {
    if a == [] {
      assert a + b == b;
    } else {
      assert (a + b)[1..] == a[1..] + b;
      JoinAppend(a[1..], b);
    }
  }

  lemma MatchedTextsAppend(a: seq<Span>, b: seq<Span>)
    ensures MatchedTexts(a + b) == MatchedTexts(a) + MatchedTexts(b)
  {
    if a == [] {
      assert a + b == b;
    } else {
      assert (a + b)[1..] == a[1..] + b;
      MatchedTextsAppend(a[1..], b);
    }
  }

  /** Joining a gap, one span and the rest. */
  lemma JoinAround(gap: seq<Span>, hit: Span, rest: seq<Span>)
    ensures Join(gap + [hit] + rest) == Join(gap) + hit.text + Join(rest)
  {
    JoinAppend(gap + [hit], rest);
    JoinAppend(gap, [hit]);
  }

  /** The gap before the first submatch and the submatch itself extend the
      joined spans after it back to `pos`. */
  lemma JoinFirstSubmatch(text: string, subs: seq<Range>, pos: nat)
    requires pos <= |text| && SortedWithin(subs, pos, |text|) && subs != []
    requires Join(SpansFrom(text, subs[1..], subs[0].end)) == text[subs[0].end..]
    ensures Join(SpansFrom(text, subs, pos)) == text[pos..]
  {
    var s := subs[0];
    var gap := if pos < s.start then [Span(false, text[pos..s.start])] else [];
    JoinAround(gap, Span(true, text[s.start..s.end]), SpansFrom(text, subs[1..], s.end));
    assert Join(gap) == text[pos..s.start];
    assert text[pos..] == text[pos..s.start] + text[s.start..s.end] + text[s.end..];
  }

  /** The spans from `pos` on, joined, are the text from `pos` on. */
  lemma {:induction false} SpansFromJoin(text: string, subs: seq<Range>, pos: nat)
    requires pos <= |text| && SortedWithin(subs, pos, |text|)
    ensures Join(SpansFrom(text, subs, pos)) == text[pos..]
    decreases |subs|
  {
    if subs != [] {
      SpansFromJoin(text, subs[1..], subs[0].end);
      JoinFirstSubmatch(text, subs, pos);
    }
  }

  /** The matched spans from `pos` on are the texts under the submatches. */
  lemma {:induction false} SpansFromMatched(text: string, subs: seq<Range>, pos: nat)
    requires pos <= |text| && SortedWithin(subs, pos, |text|)
    ensures AllInBounds(subs, text)
    ensures MatchedTexts(SpansFrom(text, subs, pos)) == SubmatchTexts(text, subs)
    decreases |subs|
  {
    SortedWithinInBounds(subs, pos, |text|);
    if subs != [] {
      var s := subs[0];
      var gap := if pos < s.start then [Span(false, text[pos..s.start])] else [];
      var hit := [Span(true, text[s.start..s.end])];
      SpansFromMatched(text, subs[1..], s.end);
      MatchedTextsAppend(gap + hit, SpansFrom(text, subs[1..], s.end));
      MatchedTextsAppend(gap, hit);
      assert MatchedTexts(gap) == [];
      assert SubmatchTexts(text, subs) == [Slice(text, s)] + SubmatchTexts(text, subs[1..]);
    }
  }

  lemma SpansFromCover(text: string, subs: seq<Range>, pos: nat)
    requires pos <= |text| && SortedWithin(subs, pos, |text|)
    ensures Join(SpansFrom(text, subs, pos)) == text[pos..]
    ensures AllInBounds(subs, text)
    ensures MatchedTexts(SpansFrom(text, subs, pos)) == SubmatchTexts(text, subs)
  {
    SpansFromJoin(text, subs, pos);
    SpansFromMatched(text, subs, pos);
  }

  /** Joining the spans of a valid line gives back its text, and the matched
      spans are exactly the texts under its submatches, in order. */
  lemma SpansCoverText(l: Line)
    requires WellFormed(l)
    ensures Join(Spans(l)) == l.text
    ensures forall i :: 0 <= i < |l.submatches| ==> InBounds(l.submatches[i], l.text)
    ensures MatchedTexts(Spans(l)) == SubmatchTexts(l.text, l.submatches)
  {
    SpansFromCover(l.text, l.submatches, 0);
  }

  /** The range `f` chose relative to submatch `s`, moved back into the line. */
  function Reanchor(s: Range, rel: Range): (r: Range)
    ensures r.start == s.start + rel.start && r.Len() == rel.Len()
  {
    Range(s.start + rel.start, s.start + rel.start + rel.Len())
  }

  /** The re-anchored ranges of `subs`, with the empty ones dropped. */
  function AdjustedRanges(text: string, subs: seq<Range>, f: string -> Range): (r: seq<Range>)
    requires forall i :: 0 <= i < |subs| ==> InBounds(subs[i], text)
    ensures |r| <= |subs|
    ensures forall i :: 0 <= i < |r| ==> r[i].Len() > 0
  {
    if subs == [] then []
    else
      var nr := Reanchor(subs[0], f(Slice(text, subs[0])));
      (if nr.Len() > 0 then [nr] else []) + AdjustedRanges(text, subs[1..], f)
  }

  /** When `f` never picks an empty range, no submatch is dropped: the
      adjusted list is each submatch re-anchored, in order. */
  lemma {:induction false} NonEmptyAdjusterKeepsAll(text: string, subs: seq<Range>, f: string -> Range)
    requires forall i :: 0 <= i < |subs| ==> InBounds(subs[i], text)
    requires forall i :: 0 <= i < |subs| ==> f(Slice(text, subs[i])).Len() > 0
    ensures AdjustedRanges(text, subs, f) == seq(|subs|, i requires 0 <= i < |subs| => Reanchor(subs[i], f(Slice(text, subs[i]))))
  {
    if subs != [] {
      NonEmptyAdjusterKeepsAll(text, subs[1..], f);
    }
  }

  /** `Line::adjust_submatches`: each submatch is replaced by the range `f`
      picks in its text, taken relative to the submatch's start; empty results
      are dropped; `None` stands for the fail-fast panic when the new list
      breaks the submatch invariant. */
  function AdjustSubmatches(l: Line, f: string -> Range): (r: Option<Line>)
    requires WellFormed(l)
    ensures r.Some? ==> WellFormed(r.value) && r.value.num == l.num && r.value.text == l.text
    ensures AllInBounds(l.submatches, l.text)
    ensures r.Some? <==> SortedWithin(AdjustedRanges(l.text, l.submatches, f), 0, |l.text|)
    ensures r.Some? ==> r.value.submatches == AdjustedRanges(l.text, l.submatches, f)
  {
    SortedWithinInBounds(l.submatches, 0, |l.text|);
    var subs := AdjustedRanges(l.text, l.submatches, f);
    if SortedWithin(subs, 0, |l.text|) then Some(l.(submatches := subs)) else None
  }

  /** `f` only ever narrows: the range it picks lies inside its argument. */
  ghost predicate Narrowing(f: string -> Range)
  {
    forall t :: f(t).start <= f(t).end <= |t|
  }

  lemma {:induction false} NarrowingKeepsOrder(text: string, subs: seq<Range>, f: string -> Range, lo: nat)
    requires Narrowing(f)
    requires lo <= |text| && SortedWithin(subs, lo, |text|)
    ensures AllInBounds(subs, text)
    ensures SortedWithin(AdjustedRanges(text, subs, f), lo, |text|)
    decreases |subs|
  {
    SortedWithinInBounds(subs, lo, |text|);
    if subs != [] {
      var s := subs[0];
      var rel := f(Slice(text, s));
      var nr := Reanchor(s, rel);
      NarrowingKeepsOrder(text, subs[1..], f, s.end);
      var rest := AdjustedRanges(text, subs[1..], f);
      if nr.Len() > 0 {
        assert AdjustedRanges(text, subs, f) == [nr] + rest;
        assert ([nr] + rest)[1..] == rest;
        SortedWithinWeaken(rest, nr.end, s.end, |text|);
      } else {
        assert AdjustedRanges(text, subs, f) == rest;
        SortedWithinWeaken(rest, lo, s.end, |text|);
      }
    }
  }

  lemma SortedWithinWeaken(subs: seq<Range>, lo: nat, lo': nat, hi: nat)
    requires lo <= lo' && SortedWithin(subs, lo', hi)
    ensures SortedWithin(subs, lo, hi)
  {
  }

  /** An adjuster that only narrows never trips the fail-fast check. */
  lemma NarrowingAdjustSucceeds(l: Line, f: string -> Range)
    requires WellFormed(l)
    requires Narrowing(f)
    ensures AdjustSubmatches(l, f).Some?
  {
    NarrowingKeepsOrder(l.text, l.submatches, f, 0);
  }

  /** An adjuster that always picks an empty range removes every submatch,
      leaving a line that reads as one unmatched span, like a context line. */
  lemma EmptyAdjusterClears(l: Line, f: string -> Range)
    requires WellFormed(l)
    requires forall t :: f(t).Len() == 0
    ensures AdjustSubmatches(l, f) == Some(l.(submatches := []))
    ensures Spans(AdjustSubmatches(l, f).value) == if l.text == [] then [] else [Span(false, l.text)]
  {
    SortedWithinInBounds(l.submatches, 0, |l.text|);
    EmptyAdjusterDropsAll(l.text, l.submatches, f);
  }

  lemma {:induction false} EmptyAdjusterDropsAll(text: string, subs: seq<Range>, f: string -> Range)
    requires forall i :: 0 <= i < |subs| ==> InBounds(subs[i], text)
    requires forall t :: f(t).Len() == 0
    ensures AdjustedRanges(text, subs, f) == []
  {
    if subs != [] {
      EmptyAdjusterDropsAll(text, subs[1..], f);
    }
  }

  /** The adjuster of the scenario below: "foo " to 0..3, anything else to 4..7. */
  function ExampleAdjuster(t: string): Range {
    if t == "foo " then Range(0, 3) else Range(4, 7)
  }

  /** Adjusting the one submatch of a list re-anchors it, or drops it when empty. */
  lemma AdjustOne(text: string, sub: Range, f: string -> Range)
    requires InBounds(sub, text)
    ensures var nr := Reanchor(sub, f(Slice(text, sub)));
            AdjustedRanges(text, [sub], f) == if nr.Len() > 0 then [nr] else []
  {
    assert [sub][1..] == [];
  }

  /** Adjusting two submatches that both stay non-empty gives both re-anchored, in order. */
  lemma AdjustTwo(text: string, subs: seq<Range>, f: string -> Range, r0: Range, r1: Range)
    requires |subs| == 2 && InBounds(subs[0], text) && InBounds(subs[1], text)
    requires Reanchor(subs[0], f(Slice(text, subs[0]))) == r0 && r0.Len() > 0
    requires Reanchor(subs[1], f(Slice(text, subs[1]))) == r1 && r1.Len() > 0
    ensures AdjustedRanges(text, subs, f) == [r0, r1]
  {
    assert subs[1..] == [subs[1]];
    AdjustOne(text, subs[1], f);
  }

  /** The texts under the scenario's submatches and what the adjuster picks in them. */
  lemma AdjustExampleTexts()
    ensures "foo bar baz"[0..4] == "foo " && "foo bar baz"[4..11] == "bar baz"
    ensures ExampleAdjuster("foo ") == Range(0, 3) && ExampleAdjuster("bar baz") == Range(4, 7)
  {
    assert "bar baz"[0] != "foo "[0];
  }

  /** Scenario: "foo bar baz" with submatches 0..4 and 4..11, adjusted to
      0..3 of "foo " and 4..7 of "bar baz", gets submatches 0..3 and 8..11. */
  lemma AdjustExample()
    ensures WellFormed(Line(0, "foo bar baz", [Range(0, 4), Range(4, 11)]))
    ensures AdjustSubmatches(Line(0, "foo bar baz", [Range(0, 4), Range(4, 11)]), ExampleAdjuster)
            == Some(Line(0, "foo bar baz", [Range(0, 3), Range(8, 11)]))
  {
    var l := Line(0, "foo bar baz", [Range(0, 4), Range(4, 11)]);
    AdjustExampleTexts();
    AdjustTwo(l.text, l.submatches, ExampleAdjuster, Range(0, 3), Range(8, 11));
    assert SortedWithin([Range(8, 11)], 3, 11);
    assert [Range(0, 3), Range(8, 11)][1..] == [Range(8, 11)];
  }

  /** ... and then reads "foo" | " bar " | "baz". */
  lemma AdjustExampleSpans()
    ensures WellFormed(Line(0, "foo bar baz", [Range(0, 3), Range(8, 11)]))
    ensures Spans(Line(0, "foo bar baz", [Range(0, 3), Range(8, 11)]))
            == [Span(true, "foo"), Span(false, " bar "), Span(true, "baz")]
  {
    var r := Line(0, "foo bar baz", [Range(0, 3), Range(8, 11)]);
    assert r.submatches[1..] == [Range(8, 11)];
    assert r.text[0..3] == "foo" && r.text[3..8] == " bar " && r.text[8..11] == "baz";
    assert SpansFrom(r.text, [], 11) == [];
    assert SpansFrom(r.text, [Range(8, 11)], 3) == [Span(false, " bar "), Span(true, "baz")];
  }
}
