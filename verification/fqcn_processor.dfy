/** The newer FQCN classifier of `src/fqcn_processor.rs`, over multi-submatch
    lines: each submatch is narrowed, relative to its own start, to the full
    name, the package or the identifier, and a file is kept when it shows the
    full name, a matching import, or a package declaration together with an
    identifier hit. */
module FqcnProcessor {
  import opened Strings
  import opened FqcnParser
  import opened LineModel

  const PackagePrefix: string := "package "
  const ImportPrefix: string := "import "

  /** The three strings the closure searches for, taken from the name once. */
  datatype Needles = Needles(value: string, package: string, ident: string)

  function NeedlesOf(fqcn: Fqcn): (n: Needles)
    requires Valid(fqcn)
    ensures n.value == n.package + "." + n.ident
    ensures IsSegment(n.package) && IsIdent(n.ident)
  {
    ValueIsPackageDotIdent(fqcn);
    Needles(Value(fqcn), FqcnParser.Package(fqcn), Ident(fqcn))
  }

  /** None of the three needles is empty. */
  predicate NonEmpty(n: Needles) {
    |n.value| > 0 && |n.package| > 0 && |n.ident| > 0
  }

  /** Import evidence: the line imports the full name. */
  predicate ImportLine(n: Needles, l: Line) {
    StartsWith(l.text, ImportPrefix) && Contains(l.text, n.value)
  }

  /** Package evidence: the line declares the package. */
  predicate PackageLine(n: Needles, l: Line) {
    StartsWith(l.text, PackagePrefix) && Contains(l.text, n.package)
  }

  /** Only the identifier occurs in a submatch: neither the full name nor the package does. */
  predicate IdentOnly(n: Needles, sub: string) {
    !Contains(sub, n.value) && !Contains(sub, n.package) && Contains(sub, n.ident)
  }

  /** What the adjuster closure returns for one submatch, and the flags it raises. */
  datatype Narrowed = Narrowed(range: Range, sawFqcn: bool, sawIdent: bool)

  /** The adjuster closure: the first full name, else the first package, else
      the first identifier in the submatch; else the whole submatch. Only a
      full-name hit and an identifier hit raise a flag. */
  function NarrowSubmatch(n: Needles, sub: string): (r: Narrowed)
    ensures r.range.start <= r.range.end <= |sub|
    ensures r.sawFqcn <==> Contains(sub, n.value)
    ensures r.sawIdent <==> IdentOnly(n, sub)
  {
    match Find(sub, n.value)
    case Some(i) => Narrowed(Range(i, i + |n.value|), true, false)
    case None =>
      match Find(sub, n.package)
      case Some(i) => Narrowed(Range(i, i + |n.package|), false, false)
      case None =>
        match Find(sub, n.ident)
        case Some(i) => Narrowed(Range(i, i + |n.ident|), false, true)
        case None => Narrowed(Range(0, |sub|), false, false)
  }

  /** The range picked is the first occurrence of the full name, failing that
      of the package, failing that of the identifier, failing that the whole
      submatch; with non-empty needles only an empty submatch gives an empty range. */
  lemma NarrowSubmatchMeaning(n: Needles, sub: string)
    ensures var r := NarrowSubmatch(n, sub).range;
            Contains(sub, n.value) ==>
              FirstOccurrenceFrom(sub, n.value, 0, r.start) && r.Len() == |n.value|
    ensures var r := NarrowSubmatch(n, sub).range;
            !Contains(sub, n.value) && Contains(sub, n.package) ==>
              FirstOccurrenceFrom(sub, n.package, 0, r.start) && r.Len() == |n.package|
    ensures var r := NarrowSubmatch(n, sub).range;
            IdentOnly(n, sub) ==>
              FirstOccurrenceFrom(sub, n.ident, 0, r.start) && r.Len() == |n.ident|
    ensures (!Contains(sub, n.value) && !Contains(sub, n.package) && !Contains(sub, n.ident))
            ==> NarrowSubmatch(n, sub).range == Range(0, |sub|)
    ensures NonEmpty(n) ==> (NarrowSubmatch(n, sub).range.Len() > 0 <==> sub != [])
  {
    if sub == [] {
      assert !OccursAt(sub, n.value, 0) || |n.value| == 0;
      assert !OccursAt(sub, n.package, 0) || |n.package| == 0;
      assert !OccursAt(sub, n.ident, 0) || |n.ident| == 0;
    }
  }

  /** The adjuster handed to `adjust_submatches`. */
  function Adjuster(n: Needles): (f: string -> Range)
    ensures Narrowing(f)
  {
    (t: string) => NarrowSubmatch(n, t).range
  }

  /** The submatches re-anchored at the ranges the closure picks, in order. */
  function NarrowedRanges(n: Needles, l: Line): (subs: seq<Range>)
    requires WellFormed(l)
    ensures AllInBounds(l.submatches, l.text)
    ensures |subs| == |l.submatches|
  {
    SortedWithinInBounds(l.submatches, 0, |l.text|);
    seq(|l.submatches|, i requires 0 <= i < |l.submatches| =>
      Reanchor(l.submatches[i], NarrowSubmatch(n, Slice(l.text, l.submatches[i])).range))
  }

  /** With non-empty needles, a non-empty submatch never narrows to nothing. */
  lemma NarrowNonEmpty(n: Needles, sub: string)
    requires NonEmpty(n) && sub != []
    ensures NarrowSubmatch(n, sub).range.Len() > 0
  {
    NarrowSubmatchMeaning(n, sub);
  }

  /** With the closure as adjuster nothing panics and, the needles being
      non-empty, nothing is dropped: every submatch of a well-formed line is
      non-empty, and so is what the closure picks in it. */
  lemma AdjusterKeepsAll(n: Needles, l: Line)
    requires WellFormed(l) && NonEmpty(n)
    ensures AdjustSubmatches(l, Adjuster(n)) == Some(l.(submatches := NarrowedRanges(n, l)))
  {
    var f := Adjuster(n);
    NarrowingAdjustSucceeds(l, f);
    SortedWithinInBounds(l.submatches, 0, |l.text|);
    forall i | 0 <= i < |l.submatches|
      ensures f(Slice(l.text, l.submatches[i])).Len() > 0
    {
      NarrowNonEmpty(n, Slice(l.text, l.submatches[i]));
    }
    NonEmptyAdjusterKeepsAll(l.text, l.submatches, f);
    var adj := AdjustedRanges(l.text, l.submatches, f);
    assert adj == NarrowedRanges(n, l);
  }

  /** A line after `adjust_submatches` with the closure: same number, same
      text, one narrowed submatch for each old one, in place. */
  function NarrowLine(n: Needles, l: Line): (r: Line)
    requires WellFormed(l) && NonEmpty(n)
    ensures WellFormed(r) && r.num == l.num && r.text == l.text
    ensures r.submatches == NarrowedRanges(n, l)
  {
    AdjusterKeepsAll(n, l);
    AdjustSubmatches(l, Adjuster(n)).value
  }

  /** Some submatch of the line holds the full name. */
  predicate FqcnHit(n: Needles, l: Line) {
    exists j :: 0 <= j < |l.submatches| && InBounds(l.submatches[j], l.text) && Contains(Slice(l.text, l.submatches[j]), n.value)
  }

  /** Some submatch of the line holds the identifier but neither the full name nor the package. */
  predicate IdentHit(n: Needles, l: Line) {
    exists j :: 0 <= j < |l.submatches| && InBounds(l.submatches[j], l.text) && IdentOnly(n, Slice(l.text, l.submatches[j]))
  }

  /** The four flags of the `retain_mut` closure. */
  datatype Flags = Flags(sawPackage: bool, sawImport: bool, sawIdent: bool, sawFqcn: bool)

  /** The flags raised by the submatches of one line, in order. */
  function SubmatchFlags(n: Needles, text: string, subs: seq<Range>): (r: (bool, bool))
    requires AllInBounds(subs, text)
    ensures r.0 <==> exists j :: 0 <= j < |subs| && Contains(Slice(text, subs[j]), n.value)
    ensures r.1 <==> exists j :: 0 <= j < |subs| && IdentOnly(n, Slice(text, subs[j]))
  {
    if subs == [] then (false, false)
    else
      var head := NarrowSubmatch(n, Slice(text, subs[0]));
      var rest := SubmatchFlags(n, text, subs[1..]);
      assert forall j :: 1 <= j < |subs| ==> subs[j] == subs[1..][j - 1];
      (head.sawFqcn || rest.0, head.sawIdent || rest.1)
  }

  /** The flags one line raises: the line tests (import first, then package)
      and then the submatch tests. A package declaration is never an import,
      so each flag is exactly its kind of evidence. */
  function LineFlags(n: Needles, l: Line): (fl: Flags)
    requires WellFormed(l)
    ensures fl.sawImport <==> ImportLine(n, l)
    ensures fl.sawPackage <==> PackageLine(n, l)
    ensures fl.sawFqcn <==> FqcnHit(n, l)
    ensures fl.sawIdent <==> IdentHit(n, l)
  {
    var isImport := StartsWith(l.text, ImportPrefix) && Contains(l.text, n.value);
    var isPackage := !isImport && StartsWith(l.text, PackagePrefix) && Contains(l.text, n.package);
    SortedWithinInBounds(l.submatches, 0, |l.text|);
    var subFlags := SubmatchFlags(n, l.text, l.submatches);
    assert StartsWith(l.text, PackagePrefix) ==> !StartsWith(l.text, ImportPrefix) by {
      if StartsWith(l.text, PackagePrefix) {
        assert l.text[0] == 'p';
      }
    }
    Flags(isPackage, isImport, subFlags.1, subFlags.0)
  }

  /** The flags after visiting `lines` in order. What they mean is stated by
      `ScanImport`, `ScanPackage`, `ScanFqcn` and `ScanIdent`. */
  function ScanLines(n: Needles, lines: seq<Line>): (fl: Flags)
    requires forall i :: 0 <= i < |lines| ==> WellFormed(lines[i])
  {
    if lines == [] then Flags(false, false, false, false)
    else
      var head := LineFlags(n, lines[0]);
      var rest := ScanLines(n, lines[1..]);
      Flags(head.sawPackage || rest.sawPackage, head.sawImport || rest.sawImport,
            head.sawIdent || rest.sawIdent, head.sawFqcn || rest.sawFqcn)
  }

  /** The import flag is raised exactly when some line imports the full name. */
  lemma {:induction false} ScanImport(n: Needles, lines: seq<Line>)
    requires forall i :: 0 <= i < |lines| ==> WellFormed(lines[i])
    ensures ScanLines(n, lines).sawImport <==> exists i :: 0 <= i < |lines| && ImportLine(n, lines[i])
  {
    if lines != [] {
      ScanImport(n, lines[1..]);
      assert forall i :: 1 <= i < |lines| ==> lines[i] == lines[1..][i - 1];
    }
  }

  /** The package flag is raised exactly when some line declares the package. */
  lemma {:induction false} ScanPackage(n: Needles, lines: seq<Line>)
    requires forall i :: 0 <= i < |lines| ==> WellFormed(lines[i])
    ensures ScanLines(n, lines).sawPackage <==> exists i :: 0 <= i < |lines| && PackageLine(n, lines[i])
  {
    if lines != [] {
      ScanPackage(n, lines[1..]);
      assert forall i :: 1 <= i < |lines| ==> lines[i] == lines[1..][i - 1];
    }
  }

  /** The full-name flag is raised exactly when some submatch holds the full name. */
  lemma {:induction false} ScanFqcn(n: Needles, lines: seq<Line>)
    requires forall i :: 0 <= i < |lines| ==> WellFormed(lines[i])
    ensures ScanLines(n, lines).sawFqcn <==> exists i :: 0 <= i < |lines| && FqcnHit(n, lines[i])
  {
    if lines != [] {
      ScanFqcn(n, lines[1..]);
      assert forall i :: 1 <= i < |lines| ==> lines[i] == lines[1..][i - 1];
    }
  }

  /** The identifier flag is raised exactly when some submatch holds only the identifier. */
  lemma {:induction false} ScanIdent(n: Needles, lines: seq<Line>)
    requires forall i :: 0 <= i < |lines| ==> WellFormed(lines[i])
    ensures ScanLines(n, lines).sawIdent <==> exists i :: 0 <= i < |lines| && IdentHit(n, lines[i])
  {
    if lines != [] {
      ScanIdent(n, lines[1..]);
      assert forall i :: 1 <= i < |lines| ==> lines[i] == lines[1..][i - 1];
    }
  }

  /** Every line of the file keeps the submatch invariant. */
  predicate FileValid(f: MatchedFile) {
    forall i :: 0 <= i < |f.lines| ==> WellFormed(f.lines[i])
  }

  /** The keep rule, stated over the file as found: the full name in a
      submatch, or a matching import, or a package declaration together with
      an identifier-only submatch. */
  predicate KeepsFile(n: Needles, f: MatchedFile) {
    || (exists i :: 0 <= i < |f.lines| && FqcnHit(n, f.lines[i]))
    || (exists i :: 0 <= i < |f.lines| && ImportLine(n, f.lines[i]))
    || ((exists i :: 0 <= i < |f.lines| && PackageLine(n, f.lines[i]))
        && (exists i :: 0 <= i < |f.lines| && IdentHit(n, f.lines[i])))
  }

  /** The file after `lines_mut().for_each` narrowed every line. */
  function NarrowFile(n: Needles, f: MatchedFile): (r: MatchedFile)
    requires NonEmpty(n) && FileValid(f)
    ensures r.filePath == f.filePath && |r.lines| == |f.lines|
    ensures forall i :: 0 <= i < |f.lines| ==> r.lines[i] == NarrowLine(n, f.lines[i])
  {
    MatchedFile(f.filePath, seq(|f.lines|, i requires 0 <= i < |f.lines| => NarrowLine(n, f.lines[i])))
  }

  /** The flags raised while scanning a file decide the keep rule. */
  lemma ScanDecides(n: Needles, f: MatchedFile)
    requires FileValid(f)
    ensures var fl := ScanLines(n, f.lines);
            fl.sawFqcn || fl.sawImport || (fl.sawPackage && fl.sawIdent) <==> KeepsFile(n, f)
  {
    ScanImport(n, f.lines);
    ScanPackage(n, f.lines);
    ScanFqcn(n, f.lines);
    ScanIdent(n, f.lines);
  }

  /** The `retain_mut` closure for one file. */
  function RetainFile(n: Needles, f: MatchedFile): (r: Option<MatchedFile>)
    requires NonEmpty(n) && FileValid(f)
    ensures r.Some? <==> KeepsFile(n, f)
    ensures r.Some? ==> r.value == NarrowFile(n, f)
  {
    var fl := ScanLines(n, f.lines);
    ScanDecides(n, f);
    if fl.sawFqcn || fl.sawImport || (fl.sawPackage && fl.sawIdent) then Some(NarrowFile(n, f)) else None
  }

  /** Every file keeps the submatch invariant. */
  predicate FilesValid(files: seq<MatchedFile>) {
    forall i :: 0 <= i < |files| ==> FileValid(files[i])
  }

  /** What one file contributes to the retained vector: itself narrowed, or nothing. */
  function Retained(n: Needles, f: MatchedFile): (r: seq<MatchedFile>)
    requires NonEmpty(n) && FileValid(f)
    ensures |r| <= 1
  {
    match RetainFile(n, f) case Some(g) => [g] case None => []
  }

  /** `matched_files.retain_mut(..)` with the closure built from `n`. */
  function RetainAll(n: Needles, files: seq<MatchedFile>): (r: seq<MatchedFile>)
    requires NonEmpty(n) && FilesValid(files)
    ensures |r| <= |files|
  {
    if files == [] then [] else Retained(n, files[0]) + RetainAll(n, files[1..])
  }

  /** `process_matched_file_fqcn`: the needles are the name's value, package
      and identifier. */
  function Process(fqcn: Fqcn, files: seq<MatchedFile>): (r: seq<MatchedFile>)
    requires Valid(fqcn) && FilesValid(files)
    ensures NonEmpty(NeedlesOf(fqcn))
    ensures |r| <= |files|
  {
    RetainAll(NeedlesOf(fqcn), files)
  }

  /** Every file that comes out is a file that satisfies the keep rule, narrowed. */
  lemma {:induction false} RetainAllSound(n: Needles, files: seq<MatchedFile>)
    requires NonEmpty(n) && FilesValid(files)
    ensures forall g :: g in RetainAll(n, files) ==>
              exists i :: 0 <= i < |files| && KeepsFile(n, files[i]) && g == NarrowFile(n, files[i])
  {
    if files != [] {
      var rest := files[1..];
      RetainAllSound(n, rest);
      forall g | g in RetainAll(n, files)
        ensures exists i :: 0 <= i < |files| && KeepsFile(n, files[i]) && g == NarrowFile(n, files[i])
      {
        if g in Retained(n, files[0]) {
          assert KeepsFile(n, files[0]) && g == NarrowFile(n, files[0]);
        } else {
          assert g in RetainAll(n, rest);
          var i :| 0 <= i < |rest| && KeepsFile(n, rest[i]) && g == NarrowFile(n, rest[i]);
          assert files[i + 1] == rest[i];
        }
      }
    }
  }

  /** Every file that satisfies the keep rule comes out, narrowed. */
  lemma {:induction false} RetainAllComplete(n: Needles, files: seq<MatchedFile>)
    requires NonEmpty(n) && FilesValid(files)
    ensures forall i :: 0 <= i < |files| && KeepsFile(n, files[i]) ==> NarrowFile(n, files[i]) in RetainAll(n, files)
  {
    if files != [] {
      var rest := files[1..];
      RetainAllComplete(n, rest);
      forall i | 0 <= i < |files| && KeepsFile(n, files[i])
        ensures NarrowFile(n, files[i]) in RetainAll(n, files)
      {
        if i == 0 {
          assert Retained(n, files[0]) == [NarrowFile(n, files[0])];
        } else {
          assert files[i] == rest[i - 1];
        }
      }
    }
  }

  /** A file comes out exactly when the keep rule holds of it, and then it
      comes out narrowed, with its path and line count. */
  lemma RetainAllKeepsExactly(n: Needles, files: seq<MatchedFile>)
    requires NonEmpty(n) && FilesValid(files)
    ensures forall g :: g in RetainAll(n, files) ==>
              exists i :: 0 <= i < |files| && KeepsFile(n, files[i]) && g == NarrowFile(n, files[i])
    ensures forall i :: 0 <= i < |files| && KeepsFile(n, files[i]) ==> NarrowFile(n, files[i]) in RetainAll(n, files)
  {
    RetainAllSound(n, files);
    RetainAllComplete(n, files);
  }

  /** Kept files stay in their original order: `RetainAll` distributes over concatenation. */
  lemma {:induction false} RetainAllAppend(n: Needles, a: seq<MatchedFile>, b: seq<MatchedFile>)
    requires NonEmpty(n) && FilesValid(a) && FilesValid(b)
    ensures FilesValid(a + b)
    ensures RetainAll(n, a + b) == RetainAll(n, a) + RetainAll(n, b)
  {
    FilesValidAppend(a, b);
    if a == [] {
      assert a + b == b;
    } else {
      FilesValidAppend(a[1..], b);
      RetainAllAppend(n, a[1..], b);
      RetainAllAppendStep(n, a, b);
      AppendAssoc(Retained(n, a[0]), RetainAll(n, a[1..]), RetainAll(n, b));
    }
  }

  lemma FilesValidAppend(a: seq<MatchedFile>, b: seq<MatchedFile>)
    requires FilesValid(a) && FilesValid(b)
    ensures FilesValid(a + b)
  {
    forall i | 0 <= i < |a + b|
      ensures FileValid((a + b)[i])
    {
      if i < |a| {
        assert (a + b)[i] == a[i];
      } else {
        assert (a + b)[i] == b[i - |a|];
      }
    }
  }

  /** The step of `RetainAllAppend`: `a + b` and `a` both unfold at the first
      file of `a`. */
  lemma RetainAllAppendStep(n: Needles, a: seq<MatchedFile>, b: seq<MatchedFile>)
    requires NonEmpty(n) && a != [] && FilesValid(a) && FilesValid(b)
    ensures FilesValid(a + b) && FilesValid(a[1..] + b)
    ensures RetainAll(n, a + b) == Retained(n, a[0]) + RetainAll(n, a[1..] + b)
    ensures RetainAll(n, a) == Retained(n, a[0]) + RetainAll(n, a[1..])
  {
    RetainAllUnfold(n, a);
    FilesValidAppend(a, b);
    FilesValidAppend(a[1..], b);
    ConsSplit(a, b);
    RetainAllUnfold(n, a + b);
  }

  /** One unfolding of `RetainAll`. */
  lemma RetainAllUnfold(n: Needles, files: seq<MatchedFile>)
    requires NonEmpty(n) && FilesValid(files) && files != []
    ensures FileValid(files[0]) && FilesValid(files[1..])
    ensures RetainAll(n, files) == Retained(n, files[0]) + RetainAll(n, files[1..])
  {
  }

  /** One file is kept, narrowed, exactly when the keep rule holds of it. */
  lemma RetainOne(n: Needles, f: MatchedFile)
    requires NonEmpty(n) && FileValid(f)
    ensures RetainAll(n, [f]) == if KeepsFile(n, f) then [NarrowFile(n, f)] else []
  {
    assert [f][1..] == [];
  }

  /** Two files that both meet the keep rule both come out, narrowed, in order. */
  lemma RetainBothKept(n: Needles, f: MatchedFile, g: MatchedFile)
    requires NonEmpty(n) && FileValid(f) && FileValid(g)
    requires KeepsFile(n, f) && KeepsFile(n, g)
    ensures RetainAll(n, [f, g]) == [NarrowFile(n, f), NarrowFile(n, g)]
  {
    RetainPair(n, f, g);
    RetainKept(n, f);
    RetainKept(n, g);
    PairSplits(NarrowFile(n, f), NarrowFile(n, g));
  }

  lemma RetainPair(n: Needles, f: MatchedFile, g: MatchedFile)
    requires NonEmpty(n) && FileValid(f) && FileValid(g)
    ensures RetainAll(n, [f, g]) == RetainAll(n, [f]) + RetainAll(n, [g])
  {
    PairSplits(f, g);
    RetainAllAppend(n, [f], [g]);
  }

  lemma RetainKept(n: Needles, f: MatchedFile)
    requires NonEmpty(n) && FileValid(f) && KeepsFile(n, f)
    ensures RetainAll(n, [f]) == [NarrowFile(n, f)]
  {
    RetainOne(n, f);
  }

  /** A package declaration and an identifier-only submatch keep a file. */
  lemma KeptByPackageAndIdent(n: Needles, f: MatchedFile, i: nat, j: nat, k: nat)
    requires i < |f.lines| && PackageLine(n, f.lines[i])
    requires j < |f.lines| && k < |f.lines[j].submatches| && InBounds(f.lines[j].submatches[k], f.lines[j].text)
    requires IdentOnly(n, Slice(f.lines[j].text, f.lines[j].submatches[k]))
    ensures KeepsFile(n, f)
  {
    assert IdentHit(n, f.lines[j]);
  }

  /** A submatch holding the full name keeps a file. */
  lemma KeptByFqcn(n: Needles, f: MatchedFile, j: nat, k: nat)
    requires j < |f.lines| && k < |f.lines[j].submatches| && InBounds(f.lines[j].submatches[k], f.lines[j].text)
    requires Contains(Slice(f.lines[j].text, f.lines[j].submatches[k]), n.value)
    ensures KeepsFile(n, f)
  {
    assert FqcnHit(n, f.lines[j]);
  }

  lemma OneLineValid(f: MatchedFile)
    requires |f.lines| == 1 && WellFormed(f.lines[0])
    ensures FileValid(f)
  {
  }

  lemma TwoLinesValid(f: MatchedFile)
    requires |f.lines| == 2 && WellFormed(f.lines[0]) && WellFormed(f.lines[1])
    ensures FileValid(f)
  {
  }

  lemma ThreeLinesValid(f: MatchedFile)
    requires |f.lines| == 3 && WellFormed(f.lines[0]) && WellFormed(f.lines[1]) && WellFormed(f.lines[2])
    ensures FileValid(f)
  {
  }

  /** Narrowing a file of two lines narrows each line. */
  lemma NarrowTwoLines(n: Needles, f: MatchedFile)
    requires NonEmpty(n) && FileValid(f) && |f.lines| == 2
    ensures NarrowFile(n, f) == MatchedFile(f.filePath, [NarrowLine(n, f.lines[0]), NarrowLine(n, f.lines[1])])
  {
    PairIs(NarrowFile(n, f).lines, NarrowLine(n, f.lines[0]), NarrowLine(n, f.lines[1]));
  }

  /** Narrowing a file of three lines narrows each line. */
  lemma NarrowThreeLines(n: Needles, f: MatchedFile)
    requires NonEmpty(n) && FileValid(f) && |f.lines| == 3
    ensures NarrowFile(n, f) == MatchedFile(f.filePath, [NarrowLine(n, f.lines[0]), NarrowLine(n, f.lines[1]), NarrowLine(n, f.lines[2])])
  {
    TripleIs(NarrowFile(n, f).lines, NarrowLine(n, f.lines[0]), NarrowLine(n, f.lines[1]), NarrowLine(n, f.lines[2]));
  }

  /** A file none of whose lines holds some character of the package can be
      neither an import, a package declaration nor a full-name hit, so it is
      dropped whatever bare identifiers it holds. */
  lemma DropsWithoutPackageChar(n: Needles, f: MatchedFile, c: char)
    requires FileValid(f)
    requires c in n.package && c in n.value
    requires forall i :: 0 <= i < |f.lines| ==> c !in f.lines[i].text
    ensures !KeepsFile(n, f)
  {
    forall i | 0 <= i < |f.lines|
      ensures !FqcnHit(n, f.lines[i]) && !ImportLine(n, f.lines[i]) && !PackageLine(n, f.lines[i])
    {
      var l := f.lines[i];
      MissingCharNoOccurrence(l.text, n.value, c, 0);
      MissingCharNoOccurrence(l.text, n.package, c, 0);
      forall j | 0 <= j < |l.submatches| && InBounds(l.submatches[j], l.text)
        ensures !Contains(Slice(l.text, l.submatches[j]), n.value)
      {
        MissingCharNoOccurrence(Slice(l.text, l.submatches[j]), n.value, c, 0);
      }
    }
  }
}

/** The unit tests of `src/fqcn_processor.rs`, for the name "foo.bar.Baz". */
module FqcnProcessorExamples {
  import opened Strings
  import opened FqcnParser
  import opened LineModel
  import opened FqcnProcessor

  const FooBarBaz := Needles("foo.bar.Baz", "foo.bar", "Baz")

  /** The needles of the parsed name "foo.bar.Baz". */
  lemma NeedlesOfFooBarBaz(fqcn: Fqcn)
    requires Valid(fqcn) && Value(fqcn) == "foo.bar.Baz"
    ensures NeedlesOf(fqcn) == FooBarBaz
  {
    ParsesFooBarBaz();
  }

  lemma NarrowPackageText()
    ensures NarrowSubmatch(FooBarBaz, "package foo.bar") == Narrowed(Range(8, 15), false, false)
  {
    var t := "package foo.bar";
    MissingCharNoOccurrence(t, "foo.bar.Baz", 'B', 0);
    assert OccursAt(t, "foo.bar", 8);
    assert 'f' !in t[..8] by {
      assert t[..8] == PackagePrefix;
    }
    forall j | 0 <= j < 8
      ensures t[j] != "foo.bar"[0]
    {
      assert t[j] == t[..8][j];
    }
    FindsFirstAt(t, "foo.bar", 8);
  }

  lemma NarrowIdentText()
    ensures NarrowSubmatch(FooBarBaz, "Baz") == Narrowed(Range(0, 3), false, true)
  {
    MissingCharNoOccurrence("Baz", "foo.bar.Baz", 'f', 0);
    MissingCharNoOccurrence("Baz", "foo.bar", 'f', 0);
    assert OccursAt("Baz", "Baz", 0);
    FindsFirstAt("Baz", "Baz", 0);
  }

  lemma NarrowValueText()
    ensures NarrowSubmatch(FooBarBaz, "foo.bar.Baz") == Narrowed(Range(0, 11), true, false)
  {
    assert OccursAt("foo.bar.Baz", "foo.bar.Baz", 0);
    FindsFirstAt("foo.bar.Baz", "foo.bar.Baz", 0);
  }

  /** Narrowing a line with one submatch re-anchors that submatch. */
  lemma NarrowOneSubmatch(n: Needles, l: Line, rel: Range)
    requires NonEmpty(n) && WellFormed(l) && |l.submatches| == 1
    requires InBounds(l.submatches[0], l.text) && NarrowSubmatch(n, Slice(l.text, l.submatches[0])).range == rel
    ensures NarrowLine(n, l) == l.(submatches := [Reanchor(l.submatches[0], rel)])
  {
    assert NarrowedRanges(n, l) == [Reanchor(l.submatches[0], rel)];
  }

  /** Narrowing a line with two submatches re-anchors each of them. */
  lemma NarrowTwoSubmatches(n: Needles, l: Line, rel0: Range, rel1: Range)
    requires NonEmpty(n) && WellFormed(l) && |l.submatches| == 2
    requires InBounds(l.submatches[0], l.text) && NarrowSubmatch(n, Slice(l.text, l.submatches[0])).range == rel0
    requires InBounds(l.submatches[1], l.text) && NarrowSubmatch(n, Slice(l.text, l.submatches[1])).range == rel1
    ensures NarrowLine(n, l) == l.(submatches := [Reanchor(l.submatches[0], rel0), Reanchor(l.submatches[1], rel1)])
  {
    assert NarrowedRanges(n, l) == [Reanchor(l.submatches[0], rel0), Reanchor(l.submatches[1], rel1)];
  }

  const PackageDecl := Line(3, "package foo.bar", [Range(0, 15)])
  const ClassDecl := Line(4, "class Baz {};", [Range(6, 9)])
  const ImportDecl := Line(2, "import foo.bar.Baz", [Range(7, 18)])
  const BareUses := Line(8, "   Baz myBaz = new Baz()", [Range(3, 6), Range(19, 22)])
  const FullUse := Line(9, " new foo.bar.Baz(1, 2);", [Range(5, 16)])

  lemma PackageDeclSubmatch()
    ensures InBounds(PackageDecl.submatches[0], PackageDecl.text)
    ensures Slice(PackageDecl.text, PackageDecl.submatches[0]) == "package foo.bar"
  {
  }

  lemma ClassDeclSubmatch()
    ensures InBounds(ClassDecl.submatches[0], ClassDecl.text)
    ensures Slice(ClassDecl.text, ClassDecl.submatches[0]) == "Baz"
  {
  }

  lemma ImportDeclSubmatch()
    ensures InBounds(ImportDecl.submatches[0], ImportDecl.text)
    ensures Slice(ImportDecl.text, ImportDecl.submatches[0]) == "foo.bar.Baz"
  {
  }

  lemma FullUseSubmatch()
    ensures InBounds(FullUse.submatches[0], FullUse.text)
    ensures Slice(FullUse.text, FullUse.submatches[0]) == "foo.bar.Baz"
  {
  }

  /** "package foo.bar" with submatch 0..15 narrows to the package name. */
  lemma PackageDeclNarrowing()
    ensures WellFormed(PackageDecl) && NonEmpty(FooBarBaz)
    ensures NarrowLine(FooBarBaz, PackageDecl) == PackageDecl.(submatches := [Range(8, 15)])
  {
    PackageDeclSubmatch();
    NarrowPackageText();
    NarrowOneSubmatch(FooBarBaz, PackageDecl, Range(8, 15));
  }

  /** ... and then reads "package " | "foo.bar". */
  lemma PackageDeclSpans()
    ensures WellFormed(Line(3, "package foo.bar", [Range(8, 15)]))
    ensures Spans(Line(3, "package foo.bar", [Range(8, 15)])) == [Span(false, "package "), Span(true, "foo.bar")]
  {
    var t := "package foo.bar";
    assert t[0..8] == "package " && t[8..15] == "foo.bar";
    assert SpansFrom(t, [], 15) == [];
  }

  /** "class Baz {};" keeps its identifier submatch. */
  lemma ClassDeclNarrowing()
    ensures WellFormed(ClassDecl) && NonEmpty(FooBarBaz)
    ensures NarrowLine(FooBarBaz, ClassDecl) == ClassDecl
  {
    ClassDeclSubmatch();
    NarrowIdentText();
    NarrowOneSubmatch(FooBarBaz, ClassDecl, Range(0, 3));
  }

  /** ... and reads "class " | "Baz" | " {};". */
  lemma ClassDeclSpans()
    ensures WellFormed(ClassDecl)
    ensures Spans(ClassDecl) == [Span(false, "class "), Span(true, "Baz"), Span(false, " {};")]
  {
    var t := ClassDecl.text;
    assert t[0..6] == "class " && t[6..9] == "Baz" && t[9..] == " {};";
  }

  /** "import foo.bar.Baz" keeps its full-name submatch. */
  lemma ImportDeclNarrowing()
    ensures WellFormed(ImportDecl) && NonEmpty(FooBarBaz)
    ensures NarrowLine(FooBarBaz, ImportDecl) == ImportDecl
  {
    ImportDeclSubmatch();
    NarrowValueText();
    NarrowOneSubmatch(FooBarBaz, ImportDecl, Range(0, 11));
  }

  /** ... and reads "import " | "foo.bar.Baz". */
  lemma ImportDeclSpans()
    ensures WellFormed(ImportDecl)
    ensures Spans(ImportDecl) == [Span(false, "import "), Span(true, "foo.bar.Baz")]
  {
    var t := ImportDecl.text;
    assert t[0..7] == "import " && t[7..18] == "foo.bar.Baz";
    assert SpansFrom(t, [], 18) == [];
  }

  /** Both submatches of the bare uses read "Baz". */
  lemma BareUsesIdents()
    ensures BareUses.text[3..6] == "Baz" && BareUses.text[19..22] == "Baz"
  {
    var t := BareUses.text;
    assert t == "   Baz myBaz = new Baz()";
    assert t[3..6] == "Baz";
    assert t[19..22] == "Baz";
  }

  /** Two bare identifiers on one line are narrowed independently. */
  lemma BareUsesNarrowing()
    ensures WellFormed(BareUses) && NonEmpty(FooBarBaz)
    ensures NarrowLine(FooBarBaz, BareUses) == BareUses
  {
    assert BareUses.submatches[1..] == [Range(19, 22)];
    BareUsesIdents();
    NarrowIdentText();
    NarrowTwoSubmatches(FooBarBaz, BareUses, Range(0, 3), Range(0, 3));
  }

  /** The spans of the bare uses after the first identifier. */
  lemma BareUsesTail()
    ensures SortedWithin([Range(19, 22)], 6, |BareUses.text|)
    ensures SpansFrom(BareUses.text, [Range(19, 22)], 6) == [Span(false, " myBaz = new "), Span(true, "Baz"), Span(false, "()")]
  {
    var t := BareUses.text;
    assert t[6..19] == " myBaz = new ";
    assert t[19..22] == "Baz";
    assert t[22..] == "()";
  }

  /** ... and the line reads "   " | "Baz" | " myBaz = new " | "Baz" | "()". */
  lemma BareUsesSpans()
    ensures WellFormed(BareUses)
    ensures Spans(BareUses) == [Span(false, "   "), Span(true, "Baz"), Span(false, " myBaz = new "),
                                Span(true, "Baz"), Span(false, "()")]
  {
    var t := BareUses.text;
    assert BareUses.submatches[1..] == [Range(19, 22)];
    assert t[0..3] == "   ";
    assert t[3..6] == "Baz";
    BareUsesTail();
  }

  /** " new foo.bar.Baz(1, 2);" keeps its full-name submatch. */
  lemma FullUseNarrowing()
    ensures WellFormed(FullUse) && NonEmpty(FooBarBaz)
    ensures NarrowLine(FooBarBaz, FullUse) == FullUse
  {
    FullUseSubmatch();
    NarrowValueText();
    NarrowOneSubmatch(FooBarBaz, FullUse, Range(0, 11));
  }

  lemma FullUsePieces()
    ensures |FullUse.text| == 23
    ensures FullUse.text[0..5] == " new " && FullUse.text[5..16] == "foo.bar.Baz"
    ensures FullUse.text[16..] == "(1, 2);"
  {
    var t := FullUse.text;
    assert t == " new foo.bar.Baz(1, 2);";
    assert t[0..5] == " new ";
    assert t[5..16] == "foo.bar.Baz";
    assert t[16..] == "(1, 2);";
  }

  /** ... and reads " new " | "foo.bar.Baz" | "(1, 2);". */
  lemma FullUseSpans()
    ensures WellFormed(FullUse)
    ensures Spans(FullUse) == [Span(false, " new "), Span(true, "foo.bar.Baz"), Span(false, "(1, 2);")]
  {
    FullUsePieces();
    var t := FullUse.text;
    assert SpansFrom(t, [], 16) == [Span(false, "(1, 2);")];
  }

  /** "package foo.bar" declares the package of the name. */
  lemma PackageDeclIsPackageLine()
    ensures PackageLine(FooBarBaz, PackageDecl)
  {
    var t := PackageDecl.text;
    assert t[..8] == PackagePrefix;
    assert t[8..15] == "foo.bar";
    assert OccursAt(t, "foo.bar", 8);
  }

  /** "class Baz {};" names the identifier alone. */
  lemma ClassDeclNamesIdent()
    ensures InBounds(ClassDecl.submatches[0], ClassDecl.text)
    ensures IdentOnly(FooBarBaz, Slice(ClassDecl.text, ClassDecl.submatches[0]))
  {
    ClassDeclSubmatch();
    NarrowIdentText();
  }

  /** "import foo.bar.Baz" names the full name. */
  lemma ImportDeclNamesFqcn()
    ensures InBounds(ImportDecl.submatches[0], ImportDecl.text)
    ensures Contains(Slice(ImportDecl.text, ImportDecl.submatches[0]), FooBarBaz.value)
  {
    ImportDeclSubmatch();
    NarrowValueText();
  }

  const BazFile := MatchedFile("foo/bar/Baz.java", [PackageDecl, ClassDecl])
  const BazFileNarrowed := MatchedFile("foo/bar/Baz.java", [PackageDecl.(submatches := [Range(8, 15)]), ClassDecl])
  const QuuxFile := MatchedFile("foo/Quux.java", [ImportDecl, BareUses, FullUse])

  lemma BazFileValid()
    ensures FileValid(BazFile) && NonEmpty(FooBarBaz)
  {
    PackageDeclNarrowing();
    ClassDeclNarrowing();
    TwoLinesValid(BazFile);
  }

  lemma QuuxFileValid()
    ensures FileValid(QuuxFile) && NonEmpty(FooBarBaz)
  {
    ImportDeclNarrowing();
    BareUsesNarrowing();
    FullUseNarrowing();
    ThreeLinesValid(QuuxFile);
  }

  /** The declaring file is kept: it declares the package and names the identifier alone. */
  lemma BazFileKept()
    ensures FileValid(BazFile) && NonEmpty(FooBarBaz)
    ensures KeepsFile(FooBarBaz, BazFile)
  {
    BazFileValid();
    PackageDeclIsPackageLine();
    ClassDeclNamesIdent();
    KeptByPackageAndIdent(FooBarBaz, BazFile, 0, 1, 0);
  }

  /** ... and comes out with the package declaration narrowed to the package name. */
  lemma BazFileNarrowing()
    ensures FileValid(BazFile) && NonEmpty(FooBarBaz)
    ensures NarrowFile(FooBarBaz, BazFile) == BazFileNarrowed
  {
    BazFileValid();
    PackageDeclNarrowing();
    ClassDeclNarrowing();
    NarrowTwoLines(FooBarBaz, BazFile);
  }

  /** The importing file is kept: its import line holds the full name. */
  lemma QuuxFileKept()
    ensures FileValid(QuuxFile) && NonEmpty(FooBarBaz)
    ensures KeepsFile(FooBarBaz, QuuxFile)
  {
    QuuxFileValid();
    ImportDeclNamesFqcn();
    KeptByFqcn(FooBarBaz, QuuxFile, 0, 0);
  }

  /** ... and comes out unchanged: every submatch already is a needle. */
  lemma QuuxFileNarrowing()
    ensures FileValid(QuuxFile) && NonEmpty(FooBarBaz)
    ensures NarrowFile(FooBarBaz, QuuxFile) == QuuxFile
  {
    QuuxFileValid();
    ImportDeclNarrowing();
    BareUsesNarrowing();
    FullUseNarrowing();
    NarrowThreeLines(FooBarBaz, QuuxFile);
  }

  /** `test_works`: both files are kept, in order, the declaring one narrowed. */
  lemma KeepsDeclaringAndImportingFiles(fqcn: Fqcn)
    requires Valid(fqcn) && Value(fqcn) == "foo.bar.Baz"
    ensures FileValid(BazFile) && FileValid(QuuxFile)
    ensures Process(fqcn, [BazFile, QuuxFile]) == [BazFileNarrowed, QuuxFile]
  {
    NeedlesOfFooBarBaz(fqcn);
    BazFileKept();
    QuuxFileKept();
    BazFileNarrowing();
    QuuxFileNarrowing();
    RetainBothKept(FooBarBaz, BazFile, QuuxFile);
  }

  const RightImport := Line(2, "import foo.bar.Baz;", [Range(7, 18)])
  const RightFile := MatchedFile("foo/RightBaz.java", [RightImport])

  lemma RightImportSubmatch()
    ensures InBounds(RightImport.submatches[0], RightImport.text)
    ensures Slice(RightImport.text, RightImport.submatches[0]) == "foo.bar.Baz"
  {
  }

  /** The right import keeps its full-name submatch. */
  lemma RightImportNarrowing()
    ensures WellFormed(RightImport) && NonEmpty(FooBarBaz)
    ensures InBounds(RightImport.submatches[0], RightImport.text)
    ensures Contains(Slice(RightImport.text, RightImport.submatches[0]), FooBarBaz.value)
    ensures NarrowLine(FooBarBaz, RightImport) == RightImport
  {
    RightImportSubmatch();
    NarrowValueText();
    NarrowOneSubmatch(FooBarBaz, RightImport, Range(0, 11));
  }

  /** `test_keeps_right_import`: the file importing the name is kept unchanged. */
  lemma KeepsRightImport(fqcn: Fqcn)
    requires Valid(fqcn) && Value(fqcn) == "foo.bar.Baz"
    ensures FileValid(RightFile)
    ensures Process(fqcn, [RightFile]) == [RightFile]
  {
    NeedlesOfFooBarBaz(fqcn);
    RightImportNarrowing();
    OneLineValid(RightFile);
    KeptByFqcn(FooBarBaz, RightFile, 0, 0);
    OneIs(NarrowFile(FooBarBaz, RightFile).lines, RightImport);
    RetainOne(FooBarBaz, RightFile);
  }

  /** ... whose line reads "import " | "foo.bar.Baz" | ";". */
  lemma RightImportSpans()
    ensures WellFormed(RightImport)
    ensures Spans(RightImport) == [Span(false, "import "), Span(true, "foo.bar.Baz"), Span(false, ";")]
  {
    var t := RightImport.text;
    assert t[0..7] == "import ";
    assert t[7..18] == "foo.bar.Baz";
    assert t[18..] == ";";
  }

  const WrongImport := Line(2, "import com.other.Baz;", [Range(7, 20)])
  const WrongUse := Line(8, "Baz b;", [Range(0, 3)])
  const WrongFile := MatchedFile("foo/WrongBaz.java", [WrongImport, WrongUse])

  /** Neither line of the file mentions an 'f', the first letter of the package. */
  lemma WrongFileFacts()
    ensures FileValid(WrongFile)
    ensures forall i :: 0 <= i < |WrongFile.lines| ==> 'f' !in WrongFile.lines[i].text
  {
    assert WellFormed(WrongImport) && WellFormed(WrongUse);
    assert 'f' !in WrongImport.text && 'f' !in WrongUse.text;
    TwoLinesValid(WrongFile);
  }

  /** `test_filters_wrong_import`: importing another `Baz` and using the bare
      identifier does not keep the file. */
  lemma DropsWrongImport(fqcn: Fqcn)
    requires Valid(fqcn) && Value(fqcn) == "foo.bar.Baz"
    ensures FileValid(WrongFile)
    ensures Process(fqcn, [WrongFile]) == []
  {
    NeedlesOfFooBarBaz(fqcn);
    WrongFileFacts();
    assert FooBarBaz.package[0] == 'f' && FooBarBaz.value[0] == 'f';
    DropsWithoutPackageChar(FooBarBaz, WrongFile, 'f');
    RetainOne(FooBarBaz, WrongFile);
  }
}
