/** The older FQCN classifier of `src/fqcn_replacer.rs`, over single-range
    matches: each match is narrowed to the package, the full name or the
    identifier, and a file is kept when it shows a package declaration or an
    import AND an identifier hit. */
module FqcnReplacer {
  import opened Strings
  import opened FqcnParser
  import opened MatchModel

  const PackagePrefix: string := "package "
  const ImportPrefix: string := "import "

  predicate IsPackageLine(m: Match) {
    StartsWith(m.value, PackagePrefix)
  }

  predicate IsImportLine(m: Match) {
    StartsWith(m.value, ImportPrefix)
  }

  /** Narrowing `m` does not panic: a package declaration is never sliced,
      and any other line is sliced as `m.value[start..]`. */
  predicate Sliceable(m: Match) {
    IsPackageLine(m) || m.matchRange.start <= |m.value|
  }

  predicate AllSliceable(lines: seq<Line>) {
    forall i :: 0 <= i < |lines| && lines[i].MatchLine? ==> Sliceable(lines[i].m)
  }

  /** The body of the per-match closure: a package line gets the range just
      after "package ", else the first full name at or after the old start,
      else the first identifier there; otherwise the match is left alone.
      What the result means is stated by `NarrowMatchMeaning`. */
  function NarrowMatch(fqcn: Fqcn, m: Match): (r: Match)
    requires Valid(fqcn) && Sliceable(m)
    ensures r.lineNum == m.lineNum && r.value == m.value
  {
    var start := m.matchRange.start;
    if IsPackageLine(m) then
      m.(matchRange := Range(|PackagePrefix|, |PackagePrefix| + |FqcnParser.Package(fqcn)|), matchType := MatchType.Package)
    else match FindFrom(m.value, Value(fqcn), start)
      case Some(idx) => m.(matchRange := Range(idx, idx + |Value(fqcn)|), matchType := FqcnFull)
      case None =>
        match FindFrom(m.value, Ident(fqcn), start)
        case Some(idx) => m.(matchRange := Range(idx, idx + |Ident(fqcn)|), matchType := FqcnIdent)
        case None => m
  }

  /** A package line is narrowed to the package after "package "; any other
      line to the first full name at or after the old start, failing that to
      the first identifier there, failing that not at all. */
  lemma NarrowMatchMeaning(fqcn: Fqcn, m: Match)
    requires Valid(fqcn) && Sliceable(m)
    ensures var r := NarrowMatch(fqcn, m);
            IsPackageLine(m) ==>
              r.matchType == MatchType.Package && r.matchRange == Range(|PackagePrefix|, |PackagePrefix| + |FqcnParser.Package(fqcn)|)
    ensures var r := NarrowMatch(fqcn, m);
            !IsPackageLine(m) && ContainsFrom(m.value, Value(fqcn), m.matchRange.start) ==>
              && r.matchType == FqcnFull
              && FirstOccurrenceFrom(m.value, Value(fqcn), m.matchRange.start, r.matchRange.start)
              && r.matchRange.end == r.matchRange.start + |Value(fqcn)|
    ensures var r := NarrowMatch(fqcn, m);
            (!IsPackageLine(m) && !ContainsFrom(m.value, Value(fqcn), m.matchRange.start)
             && ContainsFrom(m.value, Ident(fqcn), m.matchRange.start)) ==>
              && r.matchType == FqcnIdent
              && FirstOccurrenceFrom(m.value, Ident(fqcn), m.matchRange.start, r.matchRange.start)
              && r.matchRange.end == r.matchRange.start + |Ident(fqcn)|
    ensures var r := NarrowMatch(fqcn, m);
            (!IsPackageLine(m) && !ContainsFrom(m.value, Value(fqcn), m.matchRange.start)
             && !ContainsFrom(m.value, Ident(fqcn), m.matchRange.start)) ==> r == m
  {
  }

  /** A declaration "package <package>..." is narrowed to exactly the package. */
  lemma PackageLineNarrowsToPackage(fqcn: Fqcn, m: Match, rest: string)
    requires Valid(fqcn) && Sliceable(m)
    requires m.value == PackagePrefix + FqcnParser.Package(fqcn) + rest
    ensures InRange(NarrowMatch(fqcn, m))
    ensures Middle(NarrowMatch(fqcn, m)) == FqcnParser.Package(fqcn)
    ensures NarrowMatch(fqcn, m).matchType == MatchType.Package
  {
    assert StartsWith(m.value, PackagePrefix);
    NarrowMatchMeaning(fqcn, m);
  }

  /** What the closure records about one match. */
  datatype Evidence = Evidence(sawPackage: bool, sawImport: bool, sawIdent: bool)

  /** The flags raised while visiting `ms` in order, as the closure does.
      What they mean is stated by `ScanImport`, `ScanPackage` and `ScanIdent`. */
  function Scan(fqcn: Fqcn, ms: seq<Match>): (e: Evidence)
    requires Valid(fqcn)
  {
    if ms == [] then Evidence(false, false, false)
    else
      var m := ms[0];
      var rest := Scan(fqcn, ms[1..]);
      var isPackage := IsPackageLine(m);
      var isIdent := !isPackage &&
                     (FindFrom(m.value, Value(fqcn), m.matchRange.start).Some? ||
                      FindFrom(m.value, Ident(fqcn), m.matchRange.start).Some?);
      Evidence(isPackage || rest.sawPackage, IsImportLine(m) || rest.sawImport, isIdent || rest.sawIdent)
  }

  /** The import flag is raised exactly when some match is an import line. */
  lemma {:induction false} ScanImport(fqcn: Fqcn, ms: seq<Match>)
    requires Valid(fqcn)
    ensures Scan(fqcn, ms).sawImport <==> exists i :: 0 <= i < |ms| && IsImportLine(ms[i])
  {
    if ms != [] {
      ScanImport(fqcn, ms[1..]);
      assert forall i :: 1 <= i < |ms| ==> ms[i] == ms[1..][i - 1];
    }
  }

  /** The package flag is raised exactly when some match is a package declaration. */
  lemma {:induction false} ScanPackage(fqcn: Fqcn, ms: seq<Match>)
    requires Valid(fqcn)
    ensures Scan(fqcn, ms).sawPackage <==> exists i :: 0 <= i < |ms| && IsPackageLine(ms[i])
  {
    if ms != [] {
      ScanPackage(fqcn, ms[1..]);
      assert forall i :: 1 <= i < |ms| ==> ms[i] == ms[1..][i - 1];
    }
  }

  /** The identifier flag is raised exactly when some match is an identifier hit. */
  lemma {:induction false} ScanIdent(fqcn: Fqcn, ms: seq<Match>)
    requires Valid(fqcn)
    requires forall i :: 0 <= i < |ms| ==> Sliceable(ms[i])
    ensures Scan(fqcn, ms).sawIdent <==> exists i :: 0 <= i < |ms| && IdentHit(fqcn, ms[i])
  {
    if ms != [] {
      var rest := ms[1..];
      assert forall i :: 0 <= i < |rest| ==> rest[i] == ms[i + 1];
      ScanIdent(fqcn, rest);
      IdentHitMeaning(fqcn, ms[0]);
      IdentHitShift(fqcn, ms);
    }
  }

  /** Some match is an identifier hit exactly when the first one is or some later one is. */
  lemma IdentHitShift(fqcn: Fqcn, ms: seq<Match>)
    requires Valid(fqcn) && ms != []
    ensures (exists i :: 0 <= i < |ms| && IdentHit(fqcn, ms[i]))
            <==> (IdentHit(fqcn, ms[0]) || exists i :: 0 <= i < |ms[1..]| && IdentHit(fqcn, ms[1..][i]))
  {
    assert forall i :: 1 <= i < |ms| ==> ms[i] == ms[1..][i - 1];
  }

  /** A match that is not a package declaration and has the identifier at or
      after its start; every full-name hit is such a hit too. */
  predicate IdentHit(fqcn: Fqcn, m: Match)
    requires Valid(fqcn)
  {
    !IsPackageLine(m) && ContainsFrom(m.value, Ident(fqcn), m.matchRange.start)
  }

  /** Finding the full name or the identifier is the same as finding the identifier. */
  lemma IdentHitMeaning(fqcn: Fqcn, m: Match)
    requires Valid(fqcn) && Sliceable(m)
    ensures (FindFrom(m.value, Value(fqcn), m.matchRange.start).Some? ||
             FindFrom(m.value, Ident(fqcn), m.matchRange.start).Some?)
            <==> ContainsFrom(m.value, Ident(fqcn), m.matchRange.start)
  {
    var found := FindFrom(m.value, Value(fqcn), m.matchRange.start);
    if found.Some? {
      ValueIsPackageDotIdent(fqcn);
      SuffixOccurs(m.value, PackageWithTrailing(fqcn), Ident(fqcn), found.value);
    }
  }

  /** The keep rule, stated over the matches of the file as found. */
  predicate KeepsFile(fqcn: Fqcn, f: MatchedFile)
    requires Valid(fqcn) && AllSliceable(f.lines)
  {
    var ms := Matches(f.lines);
    && ((exists i :: 0 <= i < |ms| && IsPackageLine(ms[i])) || (exists i :: 0 <= i < |ms| && IsImportLine(ms[i])))
    && (exists i :: 0 <= i < |ms| && IdentHit(fqcn, ms[i]))
  }

  /** Any declaration or import line together with any identifier hit keeps the file. */
  lemma KeepsOnTwoWitnesses(fqcn: Fqcn, f: MatchedFile, i: nat, j: nat)
    requires Valid(fqcn) && AllSliceable(f.lines)
    requires i < |f.lines| && j < |f.lines| && f.lines[i].MatchLine? && f.lines[j].MatchLine?
    requires IsPackageLine(f.lines[i].m) || IsImportLine(f.lines[i].m)
    requires IdentHit(fqcn, f.lines[j].m)
    ensures KeepsFile(fqcn, f)
  {
    var ms := Matches(f.lines);
    assert f.lines[i].m in ms && f.lines[j].m in ms;
  }

  /** The file after every match in it has been narrowed. */
  function NarrowFile(fqcn: Fqcn, f: MatchedFile): (r: MatchedFile)
    requires Valid(fqcn) && AllSliceable(f.lines)
    ensures r.filePath == f.filePath && |r.lines| == |f.lines|
    ensures forall i :: 0 <= i < |f.lines| && f.lines[i].Context? ==> r.lines[i] == f.lines[i]
    ensures forall i :: 0 <= i < |f.lines| && f.lines[i].MatchLine? ==>
              r.lines[i] == MatchLine(NarrowMatch(fqcn, f.lines[i].m))
  {
    MatchedFile(f.filePath, UpdateMatches(f.lines, (m: Match) requires Sliceable(m) => NarrowMatch(fqcn, m)))
  }

  lemma MatchesSliceable(lines: seq<Line>)
    requires AllSliceable(lines)
    ensures forall i :: 0 <= i < |Matches(lines)| ==> Sliceable(Matches(lines)[i])
  {
    forall i | 0 <= i < |Matches(lines)|
      ensures Sliceable(Matches(lines)[i])
    {
      assert Matches(lines)[i] in Matches(lines);
    }
  }

  /** The `retain_mut` closure for one file: narrow its matches and decide
      from the flags raised on the way whether it is kept. */
  function RetainFile(fqcn: Fqcn, f: MatchedFile): (r: Option<MatchedFile>)
    requires Valid(fqcn) && AllSliceable(f.lines)
    ensures r.Some? <==> KeepsFile(fqcn, f)
    ensures r.Some? ==> r.value == NarrowFile(fqcn, f)
  {
    ScanDecides(fqcn, f);
    var e := Scan(fqcn, Matches(f.lines));
    if (e.sawPackage || e.sawImport) && e.sawIdent then Some(NarrowFile(fqcn, f)) else None
  }

  /** The flags raised over a file's matches decide the keep rule. */
  lemma ScanDecides(fqcn: Fqcn, f: MatchedFile)
    requires Valid(fqcn) && AllSliceable(f.lines)
    ensures var e := Scan(fqcn, Matches(f.lines));
            (e.sawPackage || e.sawImport) && e.sawIdent <==> KeepsFile(fqcn, f)
  {
    MatchesSliceable(f.lines);
    ScanImport(fqcn, Matches(f.lines));
    ScanPackage(fqcn, Matches(f.lines));
    ScanIdent(fqcn, Matches(f.lines));
  }

  /** Every file's matches can be sliced from their old start. */
  predicate FilesSliceable(files: seq<MatchedFile>) {
    forall i :: 0 <= i < |files| ==> AllSliceable(files[i].lines)
  }

  /** What one file contributes to the retained vector: itself narrowed, or nothing. */
  function Retained(fqcn: Fqcn, f: MatchedFile): (r: seq<MatchedFile>)
    requires Valid(fqcn) && AllSliceable(f.lines)
    ensures |r| <= 1
  {
    match RetainFile(fqcn, f) case Some(g) => [g] case None => []
  }

  /** `process_matched_file_fqcn`: narrow every file, then keep those with
      (package or import) and identifier evidence, in their original order. */
  function Process(fqcn: Fqcn, files: seq<MatchedFile>): (r: seq<MatchedFile>)
    requires Valid(fqcn) && FilesSliceable(files)
    ensures |r| <= |files|
  {
    if files == [] then [] else Retained(fqcn, files[0]) + Process(fqcn, files[1..])
  }

  /** A file comes out of `Process` exactly when the keep rule holds of it, and
      then it comes out narrowed. */
  lemma ProcessKeepsExactly(fqcn: Fqcn, files: seq<MatchedFile>)
    requires Valid(fqcn) && FilesSliceable(files)
    ensures forall g :: g in Process(fqcn, files) ==>
              exists i :: 0 <= i < |files| && KeepsFile(fqcn, files[i]) && g == NarrowFile(fqcn, files[i])
    ensures forall i :: 0 <= i < |files| && KeepsFile(fqcn, files[i]) ==> NarrowFile(fqcn, files[i]) in Process(fqcn, files)
  {
    ProcessSound(fqcn, files);
    ProcessComplete(fqcn, files);
  }

  /** Every file that comes out is a file satisfying the keep rule, narrowed. */
  lemma {:induction false} ProcessSound(fqcn: Fqcn, files: seq<MatchedFile>)
    requires Valid(fqcn) && FilesSliceable(files)
    ensures forall g :: g in Process(fqcn, files) ==>
              exists i :: 0 <= i < |files| && KeepsFile(fqcn, files[i]) && g == NarrowFile(fqcn, files[i])
  {
    if files != [] {
      var rest := files[1..];
      ProcessUnfold(fqcn, files);
      ProcessSound(fqcn, rest);
      forall g | g in Process(fqcn, files)
        ensures exists i :: 0 <= i < |files| && KeepsFile(fqcn, files[i]) && g == NarrowFile(fqcn, files[i])
      {
        if g in Retained(fqcn, files[0]) {
          assert KeepsFile(fqcn, files[0]) && g == NarrowFile(fqcn, files[0]);
        } else {
          assert g in Process(fqcn, rest);
          var i :| 0 <= i < |rest| && KeepsFile(fqcn, rest[i]) && g == NarrowFile(fqcn, rest[i]);
          assert files[i + 1] == rest[i];
        }
      }
    }
  }

  /** Every file that satisfies the keep rule comes out, narrowed. */
  lemma {:induction false} ProcessComplete(fqcn: Fqcn, files: seq<MatchedFile>)
    requires Valid(fqcn) && FilesSliceable(files)
    ensures forall i :: 0 <= i < |files| && KeepsFile(fqcn, files[i]) ==> NarrowFile(fqcn, files[i]) in Process(fqcn, files)
  {
    if files != [] {
      var rest := files[1..];
      ProcessUnfold(fqcn, files);
      ProcessComplete(fqcn, rest);
      forall i | 0 <= i < |files| && KeepsFile(fqcn, files[i])
        ensures NarrowFile(fqcn, files[i]) in Process(fqcn, files)
      {
        if i == 0 {
          assert Retained(fqcn, files[0]) == [NarrowFile(fqcn, files[0])];
        } else {
          assert files[i] == rest[i - 1];
        }
      }
    }
  }

  /** Kept files stay in their original order: `Process` distributes over concatenation. */
  lemma {:induction false} ProcessAppend(fqcn: Fqcn, a: seq<MatchedFile>, b: seq<MatchedFile>)
    requires Valid(fqcn) && FilesSliceable(a) && FilesSliceable(b)
    ensures FilesSliceable(a + b)
    ensures Process(fqcn, a + b) == Process(fqcn, a) + Process(fqcn, b)
  {
    FilesSliceableAppend(a, b);
    if a == [] {
      assert a + b == b;
    } else {
      FilesSliceableAppend(a[1..], b);
      ProcessAppend(fqcn, a[1..], b);
      ProcessAppendStep(fqcn, a, b);
      AppendAssoc(Retained(fqcn, a[0]), Process(fqcn, a[1..]), Process(fqcn, b));
    }
  }

  lemma FilesSliceableAppend(a: seq<MatchedFile>, b: seq<MatchedFile>)
    requires FilesSliceable(a) && FilesSliceable(b)
    ensures FilesSliceable(a + b)
  {
    forall i | 0 <= i < |a + b|
      ensures AllSliceable((a + b)[i].lines)
    {
      if i < |a| {
        assert (a + b)[i] == a[i];
      } else {
        assert (a + b)[i] == b[i - |a|];
      }
    }
  }

  /** The step of `ProcessAppend`: `a + b` and `a` both unfold at the first
      file of `a`. */
  lemma ProcessAppendStep(fqcn: Fqcn, a: seq<MatchedFile>, b: seq<MatchedFile>)
    requires Valid(fqcn) && a != [] && FilesSliceable(a) && FilesSliceable(b)
    ensures FilesSliceable(a + b) && FilesSliceable(a[1..] + b)
    ensures Process(fqcn, a + b) == Retained(fqcn, a[0]) + Process(fqcn, a[1..] + b)
    ensures Process(fqcn, a) == Retained(fqcn, a[0]) + Process(fqcn, a[1..])
  {
    ProcessUnfold(fqcn, a);
    FilesSliceableAppend(a, b);
    FilesSliceableAppend(a[1..], b);
    ConsSplit(a, b);
    ProcessUnfold(fqcn, a + b);
  }

  /** One unfolding of `Process`. */
  lemma ProcessUnfold(fqcn: Fqcn, files: seq<MatchedFile>)
    requires Valid(fqcn) && FilesSliceable(files) && files != []
    ensures AllSliceable(files[0].lines) && FilesSliceable(files[1..])
    ensures Process(fqcn, files) == Retained(fqcn, files[0]) + Process(fqcn, files[1..])
  {
  }

  /** One file is kept, narrowed, exactly when the keep rule holds of it. */
  lemma ProcessOne(fqcn: Fqcn, f: MatchedFile)
    requires Valid(fqcn) && AllSliceable(f.lines)
    ensures Process(fqcn, [f]) == if KeepsFile(fqcn, f) then [NarrowFile(fqcn, f)] else []
  {
    assert [f][1..] == [];
  }

  /** Two files that both satisfy the keep rule both come out, narrowed, in order. */
  lemma ProcessBothKept(fqcn: Fqcn, f: MatchedFile, g: MatchedFile)
    requires Valid(fqcn) && AllSliceable(f.lines) && AllSliceable(g.lines)
    requires KeepsFile(fqcn, f) && KeepsFile(fqcn, g)
    ensures Process(fqcn, [f, g]) == [NarrowFile(fqcn, f), NarrowFile(fqcn, g)]
  {
    PairSplits(f, g);
    ProcessAppend(fqcn, [f], [g]);
    ProcessOne(fqcn, f);
    ProcessOne(fqcn, g);
    PairSplits(NarrowFile(fqcn, f), NarrowFile(fqcn, g));
  }

  // The two files of the unit test in `src/fqcn_replacer.rs`, before and after narrowing.

  const DeclaringFile := MatchedFile("foo/bar/Baz.java", [
    MatchLine(Match(Arbitrary, 3, Range(0, 16), "package foo.bar;")),
    MatchLine(Match(Arbitrary, 4, Range(6, 9), "class Baz {};"))])

  const DeclaringFileNarrowed := MatchedFile("foo/bar/Baz.java", [
    MatchLine(Match(MatchType.Package, 3, Range(8, 15), "package foo.bar;")),
    MatchLine(Match(FqcnIdent, 4, Range(6, 9), "class Baz {};"))])

  const ImportingFile := MatchedFile("foo/Quux.java", [
    MatchLine(Match(Arbitrary, 2, Range(7, 18), "import foo.bar.Baz;")),
    MatchLine(Match(Arbitrary, 8, Range(3, 6), "   Baz myBaz = new Baz()")),
    MatchLine(Match(Arbitrary, 8, Range(5, 16), " new foo.bar.Baz(1, 2);"))])

  const ImportingFileNarrowed := MatchedFile("foo/Quux.java", [
    MatchLine(Match(FqcnFull, 2, Range(7, 18), "import foo.bar.Baz;")),
    MatchLine(Match(FqcnIdent, 8, Range(3, 6), "   Baz myBaz = new Baz()")),
    MatchLine(Match(FqcnFull, 8, Range(5, 16), " new foo.bar.Baz(1, 2);"))])

  /** The name of the unit test in `src/fqcn_replacer.rs`: package "foo.bar", identifier "Baz". */
  lemma FooBarBazParts(fqcn: Fqcn)
    requires Valid(fqcn) && Value(fqcn) == "foo.bar.Baz"
    ensures FqcnParser.Package(fqcn) == "foo.bar" && Ident(fqcn) == "Baz"
  {
    ParsesFooBarBaz();
  }

  /** Narrowing a file of two match lines narrows each match. */
  lemma NarrowTwoMatches(fqcn: Fqcn, f: MatchedFile)
    requires Valid(fqcn) && |f.lines| == 2
    requires f.lines[0].MatchLine? && Sliceable(f.lines[0].m)
    requires f.lines[1].MatchLine? && Sliceable(f.lines[1].m)
    ensures AllSliceable(f.lines)
    ensures NarrowFile(fqcn, f)
            == MatchedFile(f.filePath, [MatchLine(NarrowMatch(fqcn, f.lines[0].m)), MatchLine(NarrowMatch(fqcn, f.lines[1].m))])
  {
    PairIs(NarrowFile(fqcn, f).lines, MatchLine(NarrowMatch(fqcn, f.lines[0].m)), MatchLine(NarrowMatch(fqcn, f.lines[1].m)));
  }

  /** Narrowing a file of three match lines narrows each match. */
  lemma NarrowThreeMatches(fqcn: Fqcn, f: MatchedFile)
    requires Valid(fqcn) && |f.lines| == 3
    requires f.lines[0].MatchLine? && Sliceable(f.lines[0].m)
    requires f.lines[1].MatchLine? && Sliceable(f.lines[1].m)
    requires f.lines[2].MatchLine? && Sliceable(f.lines[2].m)
    ensures AllSliceable(f.lines)
    ensures NarrowFile(fqcn, f)
            == MatchedFile(f.filePath, [MatchLine(NarrowMatch(fqcn, f.lines[0].m)), MatchLine(NarrowMatch(fqcn, f.lines[1].m)),
                                        MatchLine(NarrowMatch(fqcn, f.lines[2].m))])
  {
    TripleIs(NarrowFile(fqcn, f).lines, MatchLine(NarrowMatch(fqcn, f.lines[0].m)), MatchLine(NarrowMatch(fqcn, f.lines[1].m)),
             MatchLine(NarrowMatch(fqcn, f.lines[2].m)));
  }

  /** The texts of the declaring file: a package declaration, and a class
      declaration with "Baz" at its old start. */
  lemma DeclaringFileTexts()
    ensures StartsWith("package foo.bar;", PackagePrefix)
    ensures !StartsWith("class Baz {};", PackagePrefix) && OccursAt("class Baz {};", "Baz", 6)
    ensures '.' !in "class Baz {};"
  {
    assert "class Baz {};"[0] != PackagePrefix[0];
  }

  /** "package foo.bar;" is narrowed to the package after "package ". */
  lemma PackageDeclNarrowing(fqcn: Fqcn)
    requires Valid(fqcn) && Value(fqcn) == "foo.bar.Baz"
    ensures Sliceable(DeclaringFile.lines[0].m)
    ensures NarrowMatch(fqcn, DeclaringFile.lines[0].m) == DeclaringFileNarrowed.lines[0].m
    ensures var m := DeclaringFileNarrowed.lines[0].m;
            Before(m) == "package " && Middle(m) == "foo.bar" && After(m) == ";"
  {
    FooBarBazParts(fqcn);
    DeclaringFileTexts();
    NarrowMatchMeaning(fqcn, DeclaringFile.lines[0].m);
  }

  /** "class Baz {};" has no dot, so no full name; it has the identifier at its old start. */
  lemma ClassDeclNarrowing(fqcn: Fqcn)
    requires Valid(fqcn) && Value(fqcn) == "foo.bar.Baz"
    ensures Sliceable(DeclaringFile.lines[1].m)
    ensures IdentHit(fqcn, DeclaringFile.lines[1].m)
    ensures NarrowMatch(fqcn, DeclaringFile.lines[1].m) == DeclaringFileNarrowed.lines[1].m
  {
    FooBarBazParts(fqcn);
    DeclaringFileTexts();
    var m := DeclaringFile.lines[1].m;
    MissingCharNoOccurrence(m.value, Value(fqcn), '.', 6);
    NarrowsToIdentAtStart(fqcn, m);
  }

  /** "package foo.bar;" is narrowed to "package " | "foo.bar" | ";" and the
      identifier use to "Baz". */
  lemma DeclaringFileNarrowing(fqcn: Fqcn)
    requires Valid(fqcn) && Value(fqcn) == "foo.bar.Baz"
    ensures AllSliceable(DeclaringFile.lines)
    ensures NarrowFile(fqcn, DeclaringFile) == DeclaringFileNarrowed
    ensures var m := DeclaringFileNarrowed.lines[0].m;
            Before(m) == "package " && Middle(m) == "foo.bar" && After(m) == ";"
  {
    PackageDeclNarrowing(fqcn);
    ClassDeclNarrowing(fqcn);
    NarrowTwoMatches(fqcn, DeclaringFile);
  }

  /** The package declaration and the class declaration keep the declaring file. */
  lemma DeclaringFileKept(fqcn: Fqcn)
    requires Valid(fqcn) && Value(fqcn) == "foo.bar.Baz"
    ensures AllSliceable(DeclaringFile.lines)
    ensures KeepsFile(fqcn, DeclaringFile)
  {
    DeclaringFileTexts();
    PackageDeclNarrowing(fqcn);
    ClassDeclNarrowing(fqcn);
    NarrowTwoMatches(fqcn, DeclaringFile);
    KeepsOnTwoWitnesses(fqcn, DeclaringFile, 0, 1);
  }

  /** A match that holds the full name right at its old start is narrowed to
      that occurrence, as `FqcnFull`. */
  lemma NarrowsToFullAtStart(fqcn: Fqcn, m: Match)
    requires Valid(fqcn) && Sliceable(m) && !IsPackageLine(m)
    requires OccursAt(m.value, fqcn.value, m.matchRange.start)
    ensures NarrowMatch(fqcn, m)
            == m.(matchRange := Range(m.matchRange.start, m.matchRange.start + |Value(fqcn)|), matchType := FqcnFull)
  {
  }

  /** A match without the full name after its old start, but with the
      identifier right there, is narrowed to the identifier, as `FqcnIdent`. */
  lemma NarrowsToIdentAtStart(fqcn: Fqcn, m: Match)
    requires Valid(fqcn) && Sliceable(m) && !IsPackageLine(m)
    requires !ContainsFrom(m.value, Value(fqcn), m.matchRange.start)
    requires OccursAt(m.value, Ident(fqcn), m.matchRange.start)
    ensures NarrowMatch(fqcn, m)
            == m.(matchRange := Range(m.matchRange.start, m.matchRange.start + |Ident(fqcn)|), matchType := FqcnIdent)
  {
  }

  /** The import holds "foo.bar.Baz" at its old start and is no package declaration. */
  lemma ImportTextFacts()
    ensures StartsWith("import foo.bar.Baz;", ImportPrefix)
    ensures !StartsWith("import foo.bar.Baz;", PackagePrefix) && OccursAt("import foo.bar.Baz;", "foo.bar.Baz", 7)
  {
    assert "import foo.bar.Baz;"[0] != PackagePrefix[0];
  }

  /** The bare use has no dot, and "Baz" at its old start. */
  lemma UseTextFacts()
    ensures !StartsWith("   Baz myBaz = new Baz()", PackagePrefix) && OccursAt("   Baz myBaz = new Baz()", "Baz", 3)
    ensures '.' !in "   Baz myBaz = new Baz()"
  {
    var t := "   Baz myBaz = new Baz()";
    assert t[0] != PackagePrefix[0];
    assert t[3..6] == "Baz";
    assert t == t[..12] + t[12..];
    assert t[..12] == "   Baz myBaz";
    assert t[12..] == " = new Baz()";
    assert '.' !in t[..12];
    assert '.' !in t[12..];
  }

  /** The full-name use holds "foo.bar.Baz" at its old start. */
  lemma NewTextFacts()
    ensures !StartsWith(" new foo.bar.Baz(1, 2);", PackagePrefix) && OccursAt(" new foo.bar.Baz(1, 2);", "foo.bar.Baz", 5)
  {
    assert " new foo.bar.Baz(1, 2);"[0] != PackagePrefix[0];
  }

  /** "import foo.bar.Baz;": the full name is found from the old start. */
  lemma ImportLineNarrowing(fqcn: Fqcn)
    requires Valid(fqcn) && Value(fqcn) == "foo.bar.Baz"
    ensures Sliceable(ImportingFile.lines[0].m)
    ensures NarrowMatch(fqcn, ImportingFile.lines[0].m) == ImportingFileNarrowed.lines[0].m
  {
    ImportTextFacts();
    NarrowsToFullAtStart(fqcn, ImportingFile.lines[0].m);
  }

  /** "   Baz myBaz = new Baz()" has no dot, so no full name; it has the identifier at 3. */
  lemma UseLineFacts(fqcn: Fqcn)
    requires Valid(fqcn) && Value(fqcn) == "foo.bar.Baz"
    ensures var m := ImportingFile.lines[1].m;
            && !IsPackageLine(m)
            && !ContainsFrom(m.value, Value(fqcn), 3)
            && OccursAt(m.value, Ident(fqcn), 3)
  {
    FooBarBazParts(fqcn);
    UseTextFacts();
    MissingCharNoOccurrence(ImportingFile.lines[1].m.value, Value(fqcn), '.', 3);
  }

  /** The bare use: no full name, so the first identifier from the old start. */
  lemma UseLineNarrowing(fqcn: Fqcn)
    requires Valid(fqcn) && Value(fqcn) == "foo.bar.Baz"
    ensures Sliceable(ImportingFile.lines[1].m)
    ensures NarrowMatch(fqcn, ImportingFile.lines[1].m) == ImportingFileNarrowed.lines[1].m
  {
    FooBarBazParts(fqcn);
    UseLineFacts(fqcn);
    NarrowsToIdentAtStart(fqcn, ImportingFile.lines[1].m);
  }

  /** " new foo.bar.Baz(1, 2);": the full name is found from the old start. */
  lemma NewLineNarrowing(fqcn: Fqcn)
    requires Valid(fqcn) && Value(fqcn) == "foo.bar.Baz"
    ensures Sliceable(ImportingFile.lines[2].m)
    ensures NarrowMatch(fqcn, ImportingFile.lines[2].m) == ImportingFileNarrowed.lines[2].m
  {
    NewTextFacts();
    NarrowsToFullAtStart(fqcn, ImportingFile.lines[2].m);
  }

  /** The import and the full-name use become `FqcnFull`, the bare use `FqcnIdent`. */
  lemma ImportingFileNarrowing(fqcn: Fqcn)
    requires Valid(fqcn) && Value(fqcn) == "foo.bar.Baz"
    ensures AllSliceable(ImportingFile.lines)
    ensures NarrowFile(fqcn, ImportingFile) == ImportingFileNarrowed
  {
    ImportLineNarrowing(fqcn);
    UseLineNarrowing(fqcn);
    NewLineNarrowing(fqcn);
    NarrowThreeMatches(fqcn, ImportingFile);
  }

  /** The import line is import evidence and the bare use an identifier hit. */
  lemma ImportingFileKept(fqcn: Fqcn)
    requires Valid(fqcn) && Value(fqcn) == "foo.bar.Baz"
    ensures AllSliceable(ImportingFile.lines)
    ensures KeepsFile(fqcn, ImportingFile)
  {
    ImportTextFacts();
    UseLineFacts(fqcn);
    ImportingFileNarrowing(fqcn);
    KeepsOnTwoWitnesses(fqcn, ImportingFile, 0, 1);
  }

  /** Both files of the unit test in `src/fqcn_replacer.rs` are kept, narrowed, in order. */
  lemma ReplacerExample(fqcn: Fqcn)
    requires Valid(fqcn) && Value(fqcn) == "foo.bar.Baz"
    ensures AllSliceable(DeclaringFile.lines) && AllSliceable(ImportingFile.lines)
    ensures Process(fqcn, [DeclaringFile, ImportingFile]) == [DeclaringFileNarrowed, ImportingFileNarrowed]
  {
    DeclaringFileNarrowing(fqcn);
    DeclaringFileKept(fqcn);
    ImportingFileNarrowing(fqcn);
    ImportingFileKept(fqcn);
    ProcessBothKept(fqcn, DeclaringFile, ImportingFile);
  }
}
