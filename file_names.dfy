/**
 * File-name logic of the upload handler: the extension check `allowed_file`
 * and the output name built from `os.path.splitext` (POSIX rules, `/` as the
 * only separator).
 */
module FileNames {
  import opened Text

  /** `ALLOWED_EXTENSIONS`. */
  const AllowedExtensions: set<string> := {"csv"}

  /**
   * `allowed_file`: the name holds a `.` and the text after the last `.`,
   * lower-cased, is an allowed extension. The `and` short-circuits, so a
   * name with no `.` is never split.
   */
  predicate AllowedFile(filename: string) {
    '.' in filename && Lower(filename[RFind(filename, '.') + 1..]) in AllowedExtensions
  }

  /** `e` spells `csv` in any mixture of upper and lower case. */
  predicate IsCsvIgnoringCase(e: string) {
    |e| == 3 && e[0] in {'c', 'C'} && e[1] in {'s', 'S'} && e[2] in {'v', 'V'}
  }

  lemma LowerIsCsv(e: string)
    ensures Lower(e) == "csv" <==> IsCsvIgnoringCase(e)
  {
    if Lower(e) == "csv" {
      assert Lower(e)[0] == 'c' && Lower(e)[1] == 's' && Lower(e)[2] == 'v';
    }
    if IsCsvIgnoringCase(e) {
      assert Lower(e)[0] == 'c' && Lower(e)[1] == 's' && Lower(e)[2] == 'v';
    }
  }

  /**
   * An independent description of `allowed_file`: the name ends in a `.`
   * followed by `csv` in any case. Only the last suffix counts.
   */
  lemma AllowedFileIffCsvSuffix(f: string)
    ensures AllowedFile(f) <==> |f| >= 4 && f[|f| - 4] == '.' && IsCsvIgnoringCase(f[|f| - 3..])
  {
    RFindIsLast(f, '.');
    if '.' in f {
      var d := RFind(f, '.');
      LowerIsCsv(f[d + 1..]);
      if IsCsvIgnoringCase(f[d + 1..]) {
        assert d == |f| - 4;
      }
      if |f| >= 4 && f[|f| - 4] == '.' && IsCsvIgnoringCase(f[|f| - 3..]) {
        assert f[|f| - 3..][0] != '.' && f[|f| - 3..][1] != '.' && f[|f| - 3..][2] != '.';
        assert d == |f| - 4;
      }
    }
  }

  /**
   * In a name that passes `allowed_file`, the last `.` is the one before the
   * final `csv`, and it lies in the final path component.
   */
  lemma AllowedFileLastDot(f: string)
    requires AllowedFile(f)
    ensures RFind(f, '.') == |f| - 4
    ensures RFind(f, '/') < |f| - 4
  {
    RFindIsLast(f, '.');
    var e := f[RFind(f, '.') + 1..];
    AllowedExtensionSpelling(f);
    var n := |f|;
    assert |e| == 3 && RFind(f, '.') == n - 4;
    assert f[n - 3] == e[0] && f[n - 2] == e[1] && f[n - 1] == e[2];
    var r := RFind(f, '/');
    if r >= 0 {
      assert f[r] == '/';
      assert r != n - 4 && r != n - 3 && r != n - 2 && r != n - 1;
    }
  }

  /** In an accepted name, the text after the last `.` spells `csv` in some case. */
  lemma AllowedExtensionSpelling(f: string)
    requires AllowedFile(f)
    ensures IsCsvIgnoringCase(f[RFind(f, '.') + 1..])
  {
    var e := f[RFind(f, '.') + 1..];
    assert Lower(e) == "csv";
    LowerIsCsv(e);
  }

  /** `DATA.CSV` is accepted: the extension is compared in lower case. */
  lemma AcceptsUpperCase()
    ensures AllowedFile("DATA.CSV")
  {
    AllowedFileIffCsvSuffix("DATA.CSV");
  }

  /** `data.csv` is accepted: a plain CSV name. */
  lemma AcceptsDataCsv()
    ensures AllowedFile("data.csv")
  {
    AllowedFileIffCsvSuffix("data.csv");
  }

  /** `x.txt.csv` is accepted: an inner suffix does not matter. */
  lemma AcceptsInnerSuffix()
    ensures AllowedFile("x.txt.csv")
  {
    AllowedFileIffCsvSuffix("x.txt.csv");
  }

  /** `report.v2.csv` is accepted: inner dots do not matter. */
  lemma AcceptsReportV2()
    ensures AllowedFile("report.v2.csv")
  {
    AllowedFileIffCsvSuffix("report.v2.csv");
  }

  /** `.csv` is accepted: a name that is only the extension. */
  lemma AcceptsDotCsv()
    ensures AllowedFile(".csv")
  {
    AllowedFileIffCsvSuffix(".csv");
  }

  /** `data.txt` is rejected: another extension. */
  lemma RejectsTxt()
    ensures !AllowedFile("data.txt")
  {
    AllowedFileIffCsvSuffix("data.txt");
  }

  /** `data` is rejected: no `.` at all. */
  lemma RejectsNoDot()
    ensures !AllowedFile("data")
  {
    AllowedFileIffCsvSuffix("data");
  }

  /** `x.csv.txt` is rejected: only the last suffix counts. */
  lemma RejectsOuterTxt()
    ensures !AllowedFile("x.csv.txt")
  {
    AllowedFileIffCsvSuffix("x.csv.txt");
  }

  /** `csv` is rejected: `csv` without a `.`. */
  lemma RejectsBareCsv()
    ensures !AllowedFile("csv")
  {
    AllowedFileIffCsvSuffix("csv");
  }

  /** The empty name is rejected. */
  lemma RejectsEmpty()
    ensures !AllowedFile("")
  {
    AllowedFileIffCsvSuffix("");
  }

  /** `data.csv.` is rejected: an empty last suffix. */
  lemma RejectsTrailingDot()
    ensures !AllowedFile("data.csv.")
  {
    AllowedFileIffCsvSuffix("data.csv.");
  }

  /** Names `allowed_file` accepts. */
  lemma AllowedFileAccepts()
    ensures AllowedFile("DATA.CSV") && AllowedFile("data.csv") && AllowedFile("x.txt.csv")
    ensures AllowedFile(".csv")
  {
    AcceptsUpperCase();
    AcceptsDataCsv();
    AcceptsInnerSuffix();
    AcceptsDotCsv();
  }

  /** Names `allowed_file` rejects. */
  lemma AllowedFileRejects()
    ensures !AllowedFile("data.txt") && !AllowedFile("data") && !AllowedFile("x.csv.txt")
    ensures !AllowedFile("csv") && !AllowedFile("") && !AllowedFile("data.csv.")
  {
    RejectsTxt();
    RejectsNoDot();
    RejectsOuterTxt();
    RejectsBareCsv();
    RejectsEmpty();
    RejectsTrailingDot();
  }

  predicate AllDots(s: string) {
    forall i :: 0 <= i < |s| ==> s[i] == '.'
  }

  /**
   * The scan `splitext` makes over the final path component: some character
   * of `p[i..dot]` is not a `.`.
   */
  predicate NonDotBetween(p: string, i: nat, dot: nat)
    requires dot <= |p|
    decreases dot - i
  {
    i < dot && (p[i] != '.' || NonDotBetween(p, i + 1, dot))
  }

  lemma {:induction false} NonDotBetweenIff(p: string, i: nat, dot: nat)
    requires i <= dot <= |p|
    ensures NonDotBetween(p, i, dot) <==> !AllDots(p[i..dot])
    decreases dot - i
  {
    if i < dot {
      NonDotBetweenIff(p, i + 1, dot);
      var s, t := p[i..dot], p[i + 1..dot];
      assert s[0] == p[i];
      assert forall k :: 0 <= k < |t| ==> t[k] == s[k + 1];
      if AllDots(t) && p[i] == '.' {
        forall k | 0 <= k < |s| ensures s[k] == '.' {
          if k > 0 { assert s[k] == t[k - 1]; }
        }
      }
    }
  }

  /**
   * `os.path.splitext(p)` on POSIX: the extension starts at the last `.`
   * provided that `.` lies in the final path component and is preceded there
   * by a character other than `.` (leading dots are not an extension);
   * otherwise the extension is empty. Root and extension concatenate back
   * to `p`.
   */
  function SplitExt(p: string): (parts: (string, string))
    ensures parts.1 == [] || parts.1[0] == '.'
  {
    var sep := RFind(p, '/');
    var dot := RFind(p, '.');
    if dot > sep && NonDotBetween(p, sep + 1, dot) then
      (p[..dot], p[dot..])
    else (p, [])
  }

  /** Root and extension concatenate back to the name. */
  lemma SplitExtJoins(p: string)
    ensures SplitExt(p).0 + SplitExt(p).1 == p
  {
    if SplitExt(p).1 == [] {
      assert p + [] == p;
    } else {
      TakeDrop(p, RFind(p, '.'));
    }
  }

  lemma TakeDrop(s: string, i: nat)
    requires i <= |s|
    ensures s[..i] + s[i..] == s
  {
  }

  /** The extension holds no `.` after its first character and no `/`. */
  lemma SplitExtExtension(p: string)
    ensures forall k :: 0 < k < |SplitExt(p).1| ==> SplitExt(p).1[k] != '.'
    ensures forall k :: 0 <= k < |SplitExt(p).1| ==> SplitExt(p).1[k] != '/'
  {
    var ext := SplitExt(p).1;
    if ext != [] {
      var sep, dot := RFind(p, '/'), RFind(p, '.');
      RFindIsLast(p, '.');
      RFindIsLast(p, '/');
      assert ext == p[dot..];
      forall k | 0 <= k < |ext| ensures (k > 0 ==> ext[k] != '.') && ext[k] != '/' {
        assert ext[k] == p[dot + k];
      }
    }
  }

  /** SplitExt splits exactly when its guard holds. */
  lemma SplitExtSplits(p: string)
    ensures SplitExt(p).1 != [] <==>
      RFind(p, '.') > RFind(p, '/') && !AllDots(p[RFind(p, '/') + 1..RFind(p, '.')])
  {
    if RFind(p, '.') > RFind(p, '/') {
      NonDotBetweenIff(p, RFind(p, '/') + 1, RFind(p, '.'));
    }
  }

  /** A successful scan has found a character that is not a `.`. */
  lemma {:induction false} NonDotBetweenWitness(p: string, i: nat, dot: nat)
    requires dot <= |p| && NonDotBetween(p, i, dot)
    ensures exists k :: i <= k < dot && p[k] != '.'
    decreases dot - i
  {
    if p[i] == '.' {
      NonDotBetweenWitness(p, i + 1, dot);
    }
  }

  /** The scan finds any character that is not a `.`. */
  lemma {:induction false} NonDotBetweenFinds(p: string, i: nat, dot: nat, k: nat)
    requires dot <= |p| && i <= k < dot && p[k] != '.'
    ensures NonDotBetween(p, i, dot)
    decreases dot - i
  {
    if i < k {
      NonDotBetweenFinds(p, i + 1, dot, k);
    }
  }

  /** In the final path component of `p`, `p[i]` is not a `.` and the later `p[j]` is. */
  predicate NonDotThenDot(p: string, i: int, j: int) {
    RFind(p, '/') < i < j < |p| && p[i] != '.' && p[j] == '.'
  }

  /** A split name has a non-dot character before a later `.` in its final component. */
  lemma SplitExtHasNonDot(p: string)
    requires SplitExt(p).1 != []
    ensures exists i, j :: NonDotThenDot(p, i, j)
  {
    var sep, dot := RFind(p, '/'), RFind(p, '.');
    NonDotBetweenWitness(p, sep + 1, dot);
    var k :| sep + 1 <= k < dot && p[k] != '.';
    assert NonDotThenDot(p, k, dot);
  }

  /** A non-dot character before a later `.` in the final component makes SplitExt split. */
  lemma NonDotMakesExt(p: string, i: int, j: int)
    requires NonDotThenDot(p, i, j)
    ensures SplitExt(p).1 != []
  {
    RFindIsLast(p, '.');
    var sep, dot := RFind(p, '/'), RFind(p, '.');
    assert j <= dot;
    NonDotBetweenFinds(p, sep + 1, dot, i);
  }

  /**
   * The extension is non-empty exactly when the final path component holds a
   * `.` somewhere after a character that is not a `.`.
   */
  lemma SplitExtNonEmptyIff(p: string)
    ensures SplitExt(p).1 != [] <==>
      exists i, j :: NonDotThenDot(p, i, j)
  {
    if SplitExt(p).1 != [] {
      SplitExtHasNonDot(p);
    } else {
      forall i, j ensures !NonDotThenDot(p, i, j) {
        if NonDotThenDot(p, i, j) {
          NonDotMakesExt(p, i, j);
        }
      }
    }
  }

  /**
   * `f"filled_{os.path.splitext(filename)[0]}.xlsx"`: the name carries the
   * `filled_` prefix and the `.xlsx` suffix, and between them stands the
   * uploaded name, which the dropped extension completes.
   */
  function OutputName(filename: string): (r: string)
    ensures |r| >= 12 && r[..7] == "filled_" && r[|r| - 5..] == ".xlsx"
  {
    "filled_" + SplitExt(filename).0 + ".xlsx"
  }

  /** Between prefix and suffix stands the uploaded name without its extension. */
  lemma OutputNameKeepsRoot(filename: string)
    ensures var r := OutputName(filename);
      r[7..|r| - 5] + SplitExt(filename).1 == filename
  {
    var r, root := OutputName(filename), SplitExt(filename).0;
    assert r[7..|r| - 5] == root;
    SplitExtJoins(filename);
  }

  /**
   * For a name that passes `allowed_file`, the output name replaces the
   * final `.csv` by `.xlsx`, except when the final path component is only
   * dots before that `.csv`; then `.xlsx` is appended to the whole name.
   */
  lemma AllowedOutputName(f: string)
    requires AllowedFile(f)
    ensures RFind(f, '/') < |f| - 4
    ensures var base := f[RFind(f, '/') + 1..|f| - 4];
      && (!AllDots(base) ==> OutputName(f) == "filled_" + f[..|f| - 4] + ".xlsx")
      && (AllDots(base) ==> OutputName(f) == "filled_" + f + ".xlsx")
  {
    AllowedFileLastDot(f);
    var sep, dot := RFind(f, '/'), |f| - 4;
    NonDotBetweenIff(f, sep + 1, dot);
    if NonDotBetween(f, sep + 1, dot) {
      assert SplitExt(f).0 == f[..dot];
    } else {
      assert SplitExt(f).0 == f;
    }
  }

  /** An accepted name with no `/` and no leading `.` loses its `.csv`. */
  lemma PlainOutputName(f: string)
    requires AllowedFile(f) && '/' !in f && 4 < |f| && f[0] != '.'
    ensures OutputName(f) == "filled_" + f[..|f| - 4] + ".xlsx"
  {
    AllowedOutputName(f);
    RFindIsLast(f, '/');
    assert f[..|f| - 4][0] == f[0];
  }

  /** `data.csv` becomes `filled_data.xlsx`. */
  lemma OutputNameOfDataCsv()
    ensures OutputName("data.csv") == "filled_" + "data" + ".xlsx"
  {
    var f := "data.csv";
    AcceptsDataCsv();
    PlainOutputName(f);
    assert f[..|f| - 4] == "data";
  }

  /** Only the final extension is dropped: inner dots stay in the name. */
  lemma OutputNameKeepsInnerDots()
    ensures OutputName("report.v2.csv") == "filled_" + "report.v2" + ".xlsx"
  {
    var f := "report.v2.csv";
    AcceptsReportV2();
    PlainOutputName(f);
    assert f[..|f| - 4] == "report.v2";
  }

  /** A leading dot is not an extension: `.csv` keeps its `.csv`. */
  lemma OutputNameOfDotCsv()
    ensures OutputName(".csv") == "filled_" + ".csv" + ".xlsx"
  {
    var f := ".csv";
    AcceptsDotCsv();
    AllowedOutputName(f);
    RFindIsLast(f, '/');
    assert AllDots(f[0..0]);
  }
}
