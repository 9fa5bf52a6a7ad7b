/** The fully-qualified class name parser of `src/fqcn.rs`.

    `Fqcn::new` accepts a name with the anchored regular expression
    `^(([a-z0-9][a-z0-9\.]+)+\.)?([A-Z][\w]*)?$` and keeps capture group 2
    as the package and group 3 as the identifier; both groups are optional
    in the expression but both must have matched for a name to be returned.
    Here the expression is written out as a grammar over ASCII characters. */
module FqcnParser {
  import opened Strings

  predicate IsLowerOrDigit(c: char) {
    'a' <= c <= 'z' || '0' <= c <= '9'
  }

  /** `[a-z0-9\.]` */
  predicate IsPackageChar(c: char) {
    IsLowerOrDigit(c) || c == '.'
  }

  predicate IsUpper(c: char) {
    'A' <= c <= 'Z'
  }

  /** `\w`, restricted to ASCII */
  predicate IsWordChar(c: char) {
    'a' <= c <= 'z' || 'A' <= c <= 'Z' || '0' <= c <= '9' || c == '_'
  }

  /** One repetition of the inner group: `[a-z0-9][a-z0-9\.]+` */
  predicate IsSegment(s: string) {
    |s| >= 2 && IsLowerOrDigit(s[0]) && forall i :: 1 <= i < |s| ==> IsPackageChar(s[i])
  }

  /** `([a-z0-9][a-z0-9\.]+)+`: one or more segments back to back. */
  predicate IsSegments(s: string)
    decreases |s|
  {
    IsSegment(s) || exists k :: 2 <= k < |s| && IsSegment(s[..k]) && IsSegments(s[k..])
  }

  /** `[A-Z][\w]*` */
  predicate IsIdent(s: string) {
    |s| >= 1 && IsUpper(s[0]) && forall i :: 1 <= i < |s| ==> IsWordChar(s[i])
  }

  /** Both optional groups of the expression took part: `v` is a package,
      a dot and an identifier, with the package ending at `k`. */
  predicate SplitsAt(v: string, k: nat) {
    k < |v| && IsSegments(v[..k]) && v[k] == '.' && IsIdent(v[k + 1..])
  }

  ghost predicate HasPackageAndIdent(v: string) {
    exists k: nat :: SplitsAt(v, k)
  }

  /** The whole language of the expression, with either group allowed to be absent. */
  ghost predicate InLanguage(v: string) {
    || v == []
    || IsIdent(v)
    || exists k: nat :: k < |v| && IsSegments(v[..k]) && v[k] == '.' && (k + 1 == |v| || IsIdent(v[k + 1..]))
  }

  /** A parsed name; both ranges index into `value`. */
  datatype Fqcn = Fqcn(value: string, packageRange: Range, identRange: Range)

  /** The index of the first upper-case character at or after `from`, or `|v|`. */
  function FirstUpperFrom(v: string, from: nat): (r: nat)
    requires from <= |v|
    decreases |v| - from
    ensures from <= r <= |v|
    ensures r < |v| ==> IsUpper(v[r])
    ensures forall j :: from <= j < r ==> !IsUpper(v[j])
  {
    if from == |v| || IsUpper(v[from]) then from else FirstUpperFrom(v, from + 1)
  }

  /** Sequential segments always form one segment, so the regular expression's
      last repetition of group 2, under leftmost-first greedy matching, is the
      whole package. */
  lemma {:induction false} SegmentsAreOneSegment(s: string)
    requires IsSegments(s)
    ensures IsSegment(s)
    decreases |s|
  {
    if !IsSegment(s) {
      var k :| 2 <= k < |s| && IsSegment(s[..k]) && IsSegments(s[k..]);
      SegmentsAreOneSegment(s[k..]);
    }
  }

  /** A package never contains an upper-case character. */
  lemma NoUpperInSegments(s: string)
    requires IsSegments(s)
    ensures forall j :: 0 <= j < |s| ==> !IsUpper(s[j])
  {
    SegmentsAreOneSegment(s);
  }

  /** The split point of a parsable name is forced: it is just before the
      first upper-case character. */
  lemma SplitIsUnique(v: string, k: nat)
    requires SplitsAt(v, k)
    ensures FirstUpperFrom(v, 0) == k + 1
  {
    NoUpperInSegments(v[..k]);
    assert forall j :: 0 <= j < k ==> v[j] == v[..k][j];
    assert v[k + 1] == v[k + 1..][0];
  }

  /** `Fqcn::new`: `Some` exactly when both the package and the identifier
      groups of the expression match, with the package range ending just
      before the dot that precedes the identifier. */
  function Parse(v: string): (r: Option<Fqcn>)
    ensures r.Some? <==> HasPackageAndIdent(v)
    ensures r.Some? ==>
              && r.value.value == v
              && SplitsAt(v, r.value.packageRange.end)
              && r.value.packageRange.start == 0
              && r.value.identRange == Range(r.value.packageRange.end + 1, |v|)
  {
    var u := FirstUpperFrom(v, 0);
    var r := if 3 <= u < |v| && v[u - 1] == '.' && IsSegment(v[..u - 1]) && IsIdent(v[u..])
             then Some(Fqcn(v, Range(0, u - 1), Range(u, |v|)))
             else None;
    ParseMeaning(v, u, r);
    r
  }

  lemma ParseMeaning(v: string, u: nat, r: Option<Fqcn>)
    requires u == FirstUpperFrom(v, 0)
    requires r == if 3 <= u < |v| && v[u - 1] == '.' && IsSegment(v[..u - 1]) && IsIdent(v[u..])
                  then Some(Fqcn(v, Range(0, u - 1), Range(u, |v|)))
                  else None
    ensures r.Some? <==> HasPackageAndIdent(v)
    ensures r.Some? ==> SplitsAt(v, u - 1)
  {
    if r.Some? {
      assert SplitsAt(v, u - 1);
    }
    if HasPackageAndIdent(v) {
      var k: nat :| SplitsAt(v, k);
      SplitIsUnique(v, k);
      SegmentsAreOneSegment(v[..k]);
    }
  }

  /** What `Fqcn::new` may hand out. */
  predicate Valid(f: Fqcn) {
    Parse(f.value) == Some(f)
  }

  /** `Fqcn::value`: for a valid name, the package, a dot and the identifier. */
  function Value(f: Fqcn): (v: string)
    ensures Valid(f) ==> v == Package(f) + "." + Ident(f)
  {
    f.value
  }

  /** `Fqcn::package`: at least two characters of `[a-z0-9.]`, starting with `[a-z0-9]`. */
  function Package(f: Fqcn): (p: string)
    requires Valid(f)
    ensures IsSegment(p)
    ensures StartsWith(f.value, p)
  {
    SegmentsAreOneSegment(f.value[..f.packageRange.end]);
    f.value[f.packageRange.start..f.packageRange.end]
  }

  /** `Fqcn::package_with_trailing`: the package and the dot after it, a prefix of the value. */
  function PackageWithTrailing(f: Fqcn): (p: string)
    requires Valid(f)
    ensures p == Package(f) + "."
    ensures StartsWith(f.value, p)
  {
    f.value[f.packageRange.start..f.packageRange.end + 1]
  }

  /** `Fqcn::ident`: an upper-case letter and word characters, ending the value. */
  function Ident(f: Fqcn): (i: string)
    requires Valid(f)
    ensures IsIdent(i)
    ensures |i| <= |f.value| && f.value[|f.value| - |i|..] == i
  {
    f.value[f.identRange.start..f.identRange.end]
  }

  /** The value is the package, a dot and the identifier; the identifier range
      starts one past the end of the package range. */
  lemma ValueIsPackageDotIdent(f: Fqcn)
    requires Valid(f)
    ensures Value(f) == Package(f) + "." + Ident(f)
    ensures f.identRange.start == f.packageRange.end + 1
  {
    var k := f.packageRange.end;
    assert f.value == f.value[..k] + [f.value[k]] + f.value[k + 1..];
  }

  /** A package, a dot and an identifier split just after the package. */
  lemma ComposeSplits(p: string, i: string)
    requires IsSegments(p) && IsIdent(i)
    ensures SplitsAt(p + "." + i, |p|)
  {
    var v := p + "." + i;
    assert v[..|p|] == p && v[|p| + 1..] == i;
  }

  /** Composing a package and an identifier and parsing the result gives them back. */
  lemma ParseCompose(p: string, i: string)
    requires IsSegments(p) && IsIdent(i)
    ensures Parse(p + "." + i).Some?
    ensures Valid(Parse(p + "." + i).value)
    ensures Package(Parse(p + "." + i).value) == p
    ensures Ident(Parse(p + "." + i).value) == i
  {
    var v := p + "." + i;
    ComposePackageEnd(p, i);
    var f := Parse(v).value;
    assert f.value == v;
    assert Package(f) == v[0..|p|];
    assert v[0..|p|] == p;
    assert Ident(f) == v[|p| + 1..|v|];
    assert v[|p| + 1..|v|] == i;
  }

  /** The parse of a composed name puts the package range end at the dot. */
  lemma ComposePackageEnd(p: string, i: string)
    requires IsSegments(p) && IsIdent(i)
    ensures Parse(p + "." + i).Some?
    ensures Parse(p + "." + i).value.packageRange == Range(0, |p|)
    ensures Parse(p + "." + i).value.identRange == Range(|p| + 1, |p + "." + i|)
  {
    var v := p + "." + i;
    ComposeSplits(p, i);
    SplitIsUnique(v, |p|);
    var k := Parse(v).value.packageRange.end;
    SplitIsUnique(v, k);
  }

  /** Parsing the package, a dot and the identifier of a valid name gives the name back. */
  lemma ComposeParse(f: Fqcn)
    requires Valid(f)
    ensures Parse(Package(f) + "." + Ident(f)) == Some(f)
  {
    ValueIsPackageDotIdent(f);
  }

  /** The package and identifier groups are optional in the expression, yet the
      parser needs both: a dotted lower-case prefix alone, or an identifier
      alone, is in the expression's language and still gives `None`. */
  lemma BothGroupsRequired(v: string)
    requires InLanguage(v)
    ensures Parse(v).None? <==> (v == [] || IsIdent(v) || (|v| >= 1 && v[|v| - 1] == '.' && IsSegments(v[..|v| - 1])))
  {
    if Parse(v).Some? {
      var k := Parse(v).value.packageRange.end;
      NoUpperInSegments(v[..k]);
      assert v[k + 1] == v[k + 1..][0];
    } else if v != [] && !IsIdent(v) {
      var k: nat :| k < |v| && IsSegments(v[..k]) && v[k] == '.' && (k + 1 == |v| || IsIdent(v[k + 1..]));
      if k + 1 != |v| {
        assert SplitsAt(v, k);
        assert false;
      }
    }
  }

  lemma ParsesFooBarBaz()
    ensures Parse("foo.bar.Baz").Some?
    ensures Package(Parse("foo.bar.Baz").value) == "foo.bar"
    ensures Ident(Parse("foo.bar.Baz").value) == "Baz"
    ensures Value(Parse("foo.bar.Baz").value) == "foo.bar.Baz"
  {
    assert IsSegment("foo.bar");
    assert "foo.bar" + "." + "Baz" == "foo.bar.Baz";
    ParseCompose("foo.bar", "Baz");
  }

  /** No split exists in a text without an upper-case character: the
      identifier must start with one. */
  lemma NoSplitWithoutUpper(v: string)
    requires forall x :: 0 <= x < |v| ==> !IsUpper(v[x])
    ensures !HasPackageAndIdent(v)
  {
  }

  /** A dotted lower-case name without a capitalised last segment is refused. */
  lemma RejectsPackageOnly()
    ensures Parse("foo.bar").None?
  {
    var v := "foo.bar";
    assert forall x :: 0 <= x < |v| ==> !IsUpper(v[x]);
    NoSplitWithoutUpper(v);
  }

  /** No split exists when a character after the first upper-case one is not
      a word character: the identifier would have to start at that upper-case
      character and run to the end. */
  lemma NoSplitAfterBrokenIdent(v: string, u: nat, j: nat)
    requires u < j < |v| && IsUpper(v[u]) && !IsWordChar(v[j])
    requires forall x :: 0 <= x < u ==> !IsUpper(v[x])
    ensures !HasPackageAndIdent(v)
  {
    if HasPackageAndIdent(v) {
      var k: nat :| SplitsAt(v, k);
      SplitIsUnique(v, k);
      assert false;
    }
  }

  /** Trailing content after the identifier is refused: `.` is not a word
      character and upper case is not a package character. */
  lemma RejectsTrailingContent()
    ensures Parse("foo.bar.Baz.Smaz").None?
  {
    var v := "foo.bar.Baz.Smaz";
    assert forall j :: 0 <= j < 8 ==> !IsUpper(v[j]);
    NoSplitAfterBrokenIdent(v, 8, 11);
  }
}
