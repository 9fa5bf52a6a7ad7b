/** String, range and sequence helpers shared by every other module:
    the parts of Rust's `str`, `Range<usize>` and `Vec` that the program relies on. */
module Strings {

  datatype Option<T> = None | Some(value: T)

  /** A half-open range `[start, end)`, as Rust's `Range<usize>`. */
  datatype Range = Range(start: nat, end: nat) {
    /** `Range::len`: an inverted range is empty. */
    function Len(): nat {
      if start <= end then end - start else 0
    }
  }

  predicate InBounds(r: Range, s: string) {
    r.start <= r.end <= |s|
  }

  /** `&s[r]` */
  function Slice(s: string, r: Range): (t: string)
    requires InBounds(r, s)
    ensures |t| == r.Len()
  {
    s[r.start..r.end]
  }

  /** `str::starts_with` */
  predicate StartsWith(s: string, prefix: string) {
    |prefix| <= |s| && s[..|prefix|] == prefix
  }

  /** `needle` sits in `hay` at index `i`. */
  predicate OccursAt(hay: string, needle: string, i: int) {
    0 <= i && i + |needle| <= |hay| && hay[i..i + |needle|] == needle
  }

  /** `str::contains` */
  predicate Contains(hay: string, needle: string) {
    ContainsFrom(hay, needle, 0)
  }

  /** `needle` occurs in `hay` at or after `from`. */
  predicate ContainsFrom(hay: string, needle: string, from: nat) {
    exists i :: from <= i <= |hay| && OccursAt(hay, needle, i)
  }

  /** `i` is the first occurrence of `needle` in `hay` at or after `from`. */
  predicate FirstOccurrenceFrom(hay: string, needle: string, from: nat, i: nat) {
    from <= i && OccursAt(hay, needle, i) &&
    forall j :: from <= j < i ==> !OccursAt(hay, needle, j)
  }

  /** `hay[from..].find(needle)`, shifted back to an index into `hay`. */
  function FindFrom(hay: string, needle: string, from: nat): (r: Option<nat>)
    decreases |hay| - from
    ensures r.Some? ==> FirstOccurrenceFrom(hay, needle, from, r.value)
    ensures r.None? ==> forall j :: from <= j ==> !OccursAt(hay, needle, j)
    ensures r.None? <==> !ContainsFrom(hay, needle, from)
  {
    if from + |needle| > |hay| then None
    else if hay[from..from + |needle|] == needle then Some(from)
    else FindFrom(hay, needle, from + 1)
  }

  /** `str::find`: the index of the first occurrence of `needle`. */
  function Find(hay: string, needle: string): (r: Option<nat>)
    ensures r.Some? ==> FirstOccurrenceFrom(hay, needle, 0, r.value)
    ensures r.None? <==> !Contains(hay, needle)
  {
    FindFrom(hay, needle, 0)
  }

  /** `str::find` with a character pattern. */
  function FindChar(s: string, c: char): (r: Option<nat>)
    ensures r.Some? ==> r.value < |s| && s[r.value] == c && c !in s[..r.value]
    ensures r.None? ==> c !in s
  {
    if s == [] then None
    else if s[0] == c then Some(0)
    else match FindChar(s[1..], c)
      case None => None
      case Some(i) =>
        assert s[..i + 1] == [s[0]] + s[1..][..i];
        Some(i + 1)
  }

  /** An occurrence at `i` with no earlier character equal to the needle's
      first one is the one `find` reports. */
  lemma FindsFirstAt(hay: string, needle: string, i: nat)
    requires |needle| > 0 && OccursAt(hay, needle, i)
    requires forall j :: 0 <= j < i ==> hay[j] != needle[0]
    ensures Find(hay, needle) == Some(i)
  {
    var r := Find(hay, needle);
    assert ContainsFrom(hay, needle, 0);
    OccurrenceStartsWithFirst(hay, needle, r.value);
  }

  /** An occurrence begins with the needle's first character. */
  lemma OccurrenceStartsWithFirst(hay: string, needle: string, i: int)
    requires OccursAt(hay, needle, i) && |needle| > 0
    ensures hay[i] == needle[0]
  {
    assert hay[i..i + |needle|][0] == hay[i];
  }

  /** Concatenation of a sequence of strings, front to back. */
  function Concat(parts: seq<string>): string {
    if parts == [] then [] else parts[0] + Concat(parts[1..])
  }

  lemma {:induction false} ConcatAppend(parts: seq<string>, last: string)
    ensures Concat(parts + [last]) == Concat(parts) + last
  {
    if parts == [] {
      assert parts + [last] == [last];
    } else {
      assert (parts + [last])[1..] == parts[1..] + [last];
      ConcatAppend(parts[1..], last);
    }
  }

  /** An occurrence inside a slice is an occurrence in the whole string. */
  lemma OccursInSlice(hay: string, needle: string, r: Range, i: int)
    requires InBounds(r, hay)
    requires OccursAt(Slice(hay, r), needle, i)
    ensures OccursAt(hay, needle, r.start + i)
  {
    var whole := hay[r.start + i..r.start + i + |needle|];
    var part := Slice(hay, r)[i..i + |needle|];
    forall k | 0 <= k < |needle|
      ensures whole[k] == part[k]
    {
      assert whole[k] == hay[r.start + i + k];
    }
    assert whole == part;
  }

  /** A needle holding a character that the haystack lacks occurs nowhere in it. */
  lemma MissingCharNoOccurrence(hay: string, needle: string, c: char, from: nat)
    requires c in needle && c !in hay
    ensures !ContainsFrom(hay, needle, from)
  {
  }

  /** A needle that ends another needle occurs wherever the longer one does. */
  lemma SuffixOccurs(hay: string, prefix: string, needle: string, i: int)
    requires OccursAt(hay, prefix + needle, i)
    ensures OccursAt(hay, needle, i + |prefix|)
  {
    assert hay[i + |prefix|..i + |prefix| + |needle|] == (prefix + needle)[|prefix|..];
  }

  /** The head and tail of a concatenation with a non-empty front. */
  lemma ConsSplit<T>(a: seq<T>, b: seq<T>)
    requires a != []
    ensures (a + b)[0] == a[0] && (a + b)[1..] == a[1..] + b
  {
  }

  /** Concatenation is associative. */
  lemma AppendAssoc<T>(x: seq<T>, y: seq<T>, z: seq<T>)
    ensures x + (y + z) == (x + y) + z
  {
  }

  /** A two-element sequence is the concatenation of its singletons. */
  lemma PairSplits<T>(a: T, b: T)
    ensures [a, b] == [a] + [b]
  {
  }

  /** A sequence is the display of its elements: one element. */
  lemma OneIs<T>(s: seq<T>, a: T)
    requires |s| == 1 && s[0] == a
    ensures s == [a]
  {
  }

  /** A sequence is the display of its elements: two elements. */
  lemma PairIs<T>(s: seq<T>, a: T, b: T)
    requires |s| == 2 && s[0] == a && s[1] == b
    ensures s == [a, b]
  {
  }

  /** A sequence is the display of its elements: three elements. */
  lemma TripleIs<T>(s: seq<T>, a: T, b: T, c: T)
    requires |s| == 3 && s[0] == a && s[1] == b && s[2] == c
    ensures s == [a, b, c]
  {
  }
}
