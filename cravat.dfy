/** driver_mutations_with_cravat.py: the converter that writes the
    OpenCRAVAT input file (`convert_to_open_cravat_format`), the chasm
    option and annotator list of `run_cravat`, and the driver table and
    file name of `save_filtered_gene_pvalues_to_txt`.  Files are their
    lines; the OpenCRAVAT run itself and the Excel reader are not part of
    this model. */
module Cravat {
  import opened Wrappers
  import opened Text
  import opened CancerTypes
  import opened DriverMutations

  // ---------------------------------------------------------------------
  // convert_to_open_cravat_format (lines 15-51)

  /** A row whose fourth field is the strand "+", as in a file that is
      already in OpenCRAVAT form. */
  predicate PlusStrand(fields: seq<string>) {
    |fields| > 3 && fields[3] == "+"
  }

  /** Some line after the header has "+" as its fourth field. */
  predicate HasPlusLine(lines: seq<string>) {
    exists i :: 1 <= i < |lines| && PlusStrand(Fields(lines[i]))
  }

  /** The first pass (lines 18-24): conversion proceeds unless a line after
      the first has "+" as its fourth field. */
  method ScanForPlusStrand(lines: seq<string>) returns (proceed: bool)
    ensures proceed <==> !HasPlusLine(lines)
  {
    proceed := true;
    var i := 1;
    while i < |lines|
      invariant 1 <= i && proceed
      invariant forall j :: 1 <= j < i && j < |lines| ==> !PlusStrand(Fields(lines[j]))
    {
      if PlusStrand(Fields(lines[i])) {
        proceed := false;
        break;
      }
      i := i + 1;
    }
  }

  /** The line written for the `n`-th data row (line 46). */
  function CravatLine(n: nat, fields: seq<string>, cs: Columns): string
    requires Fits(fields, cs)
  {
    TabLine([NatToString(n), fields[cs.chr], fields[cs.pos], "+", fields[cs.ref], fields[cs.alt]])
  }

  /** What the row loop (lines 37-49) writes for data rows with the fields
      `rows`: one numbered line per row until a row lacks a field, where
      `fields[i]` raises IndexError.  The number is the line counter, which
      counts the lines written so far. */
  function CravatRows(rows: seq<seq<string>>, cs: Columns): Written
    decreases |rows|
  {
    if rows == [] then Written([], None)
    else
      var w := CravatRows(rows[..|rows| - 1], cs);
      var fields := rows[|rows| - 1];
      if w.raised.Some? then w
      else if Fits(fields, cs) then Written(w.lines + [CravatLine(|w.lines| + 1, fields, cs)], None)
      else Written(w.lines, Some(IndexError))
  }

  /** The output file of `convert_to_open_cravat_format`, or None when the
      conversion is skipped and no output file is opened.  A missing column
      raises ValueError after the output file has been opened (line 27). */
  function CravatOutput(lines: seq<string>): Option<Written> {
    if HasPlusLine(lines) then None
    else
      match CgiColumns(Fields(HeaderLine(lines)))
      case None => Some(Written([], Some(ValueError)))
      case Some(cs) => Some(CravatRows(DataRows(lines), cs))
  }

  /** The row loop over the lines after the header, with its line counter. */
  method WriteCravatRows(lines: seq<string>, cs: Columns) returns (w: Written)
    ensures w == CravatRows(DataRows(lines), cs)
  {
    if lines == [] {
      return Written([], None);
    }
    var out: seq<string> := [];
    var lineNumber := 1;
    var i := 1;
    while i < |lines|
      invariant 1 <= i <= |lines| && lineNumber == |out| + 1
      invariant CravatRows(DataRows(lines[..i]), cs) == Written(out, None)
    {
      var fields := Fields(lines[i]);
      CravatRowsAppend(lines, i, cs, out);
      if !Fits(fields, cs) {
        CravatRowsSticky(lines, i + 1, cs);
        return Written(out, Some(IndexError));
      }
      out := out + [CravatLine(lineNumber, fields, cs)];
      lineNumber := lineNumber + 1;
      i := i + 1;
    }
    assert lines[..i] == lines;
    w := Written(out, None);
  }

  /** One more line read by the row loop: a line numbered after those
      written so far, or IndexError. */
  lemma CravatRowsAppend(lines: seq<string>, i: nat, cs: Columns, out: seq<string>)
    requires 1 <= i < |lines| && CravatRows(DataRows(lines[..i]), cs) == Written(out, None)
    ensures Fits(Fields(lines[i]), cs) ==>
              CravatRows(DataRows(lines[..i + 1]), cs) ==
                Written(out + [CravatLine(|out| + 1, Fields(lines[i]), cs)], None)
    ensures !Fits(Fields(lines[i]), cs) ==> CravatRows(DataRows(lines[..i + 1]), cs) == Written(out, Some(IndexError))
  {
    DataRowsStep(lines, i);
  }

  /** Once a row has raised IndexError, the lines after it change nothing. */
  lemma {:induction false} CravatRowsSticky(lines: seq<string>, j: nat, cs: Columns)
    requires j <= |lines| && CravatRows(DataRows(lines[..j]), cs).raised.Some?
    ensures CravatRows(DataRows(lines), cs) == CravatRows(DataRows(lines[..j]), cs)
    decreases |lines|
  {
    if j == |lines| {
      assert lines[..j] == lines;
    } else {
      var init := lines[..|lines| - 1];
      assert init[..j] == lines[..j];
      CravatRowsSticky(init, j, cs);
    }
  }

  /** `convert_to_open_cravat_format` (lines 15-51). */
  method ConvertToOpenCravatFormat(lines: seq<string>) returns (r: Option<Written>)
    ensures r == CravatOutput(lines)
  {
    var proceed := ScanForPlusStrand(lines);
    if !proceed {
      return None;
    }
    var header := Fields(HeaderLine(lines));
    var cols := CgiColumns(header);
    if cols.None? {
      return Some(Written([], Some(ValueError)));
    }
    var w := WriteCravatRows(lines, cols.value);
    r := Some(w);
  }

  /** The row loop raises IndexError exactly when some row lacks a field,
      stopping at the first such row, and otherwise writes a line per row. */
  lemma {:induction false} CravatRowsOutcome(rows: seq<seq<string>>, cs: Columns)
    ensures CravatRows(rows, cs).raised.None? <==> forall i :: 0 <= i < |rows| ==> Fits(rows[i], cs)
    ensures CravatRows(rows, cs).raised.None? ==> |CravatRows(rows, cs).lines| == |rows|
    ensures CravatRows(rows, cs).raised.Some? ==>
              (CravatRows(rows, cs).raised == Some(IndexError) &&
               |CravatRows(rows, cs).lines| < |rows| && !Fits(rows[|CravatRows(rows, cs).lines|], cs))
    decreases |rows|
  {
    if rows != [] {
      var init := rows[..|rows| - 1];
      CravatRowsOutcome(init, cs);
      assert forall i :: 0 <= i < |init| ==> init[i] == rows[i];
    }
  }

  /** Line i of the output is numbered i + 1 and built from row i. */
  lemma {:induction false} CravatRowsLines(rows: seq<seq<string>>, cs: Columns)
    ensures |CravatRows(rows, cs).lines| <= |rows|
    ensures forall i :: 0 <= i < |CravatRows(rows, cs).lines| ==>
              Fits(rows[i], cs) && CravatRows(rows, cs).lines[i] == CravatLine(i + 1, rows[i], cs)
    decreases |rows|
  {
    if rows != [] {
      var init := rows[..|rows| - 1];
      CravatRowsLines(init, cs);
      CravatRowsOutcome(init, cs);
      assert forall i :: 0 <= i < |init| ==> init[i] == rows[i];
    }
  }

  /** The conversion is skipped exactly when a line after the header has
      "+" as its fourth field; otherwise it fails with ValueError, writing
      nothing, exactly when a column is missing in both spellings. */
  lemma CravatOutputSpec(lines: seq<string>)
    ensures CravatOutput(lines).None? <==> HasPlusLine(lines)
    ensures CravatOutput(lines).Some? ==>
              (CravatOutput(lines).value.raised == Some(ValueError) <==> MissingColumn(Fields(HeaderLine(lines))))
    ensures CravatOutput(lines).Some? && CravatOutput(lines).value.raised == Some(ValueError) ==>
              CravatOutput(lines).value.lines == []
  {
    var h := Fields(HeaderLine(lines));
    if CgiColumns(h).Some? {
      CravatRowsOutcome(DataRows(lines), CgiColumns(h).value);
    }
  }

  /** Reading a written line back (dropping "\n", splitting on tabs) gives
      its number, the chr and pos fields, "+", and the ref and alt fields,
      and `int` of the first cell is the line number. */
  lemma CravatLineRoundTrip(n: nat, fields: seq<string>, cs: Columns)
    requires Fits(fields, cs)
    requires forall i :: 0 <= i < |fields| ==> '\t' !in fields[i]
    ensures EndsWith(CravatLine(n, fields, cs), "\n")
    ensures var line := CravatLine(n, fields, cs);
            var cells := Split(line[..|line| - 1], '\t');
            cells == [NatToString(n), fields[cs.chr], fields[cs.pos], "+", fields[cs.ref], fields[cs.alt]] &&
            ParseInt(cells[0]) == Some(n)
  {
    var cells := [NatToString(n), fields[cs.chr], fields[cs.pos], "+", fields[cs.ref], fields[cs.alt]];
    DigitsLackTab(NatToString(n));
    TabLineRoundTrip(cells);
    ParseIntToString(n);
  }

  /** Trailing whitespace after a non-space character stays outside it. */
  lemma {:induction false} TrimRightAfter(p: string, q: string)
    requires p != [] && !IsSpace(p[|p| - 1])
    ensures TrimRight(p + q) == p + TrimRight(q)
    decreases |q|
  {
    if q == [] {
      assert p + q == p;
    } else if IsSpace(q[|q| - 1]) {
      assert (p + q)[..|p + q| - 1] == p + q[..|q| - 1];
      TrimRightAfter(p, q[..|q| - 1]);
    }
  }

  lemma JoinCons(a: string, rest: seq<string>, sep: string)
    requires |rest| >= 1
    ensures Join([a] + rest, sep) == a + sep + Join(rest, sep)
  {
    assert ([a] + rest)[1..] == rest;
  }

  lemma SixCells(a: string, b: string, c: string, d: string, e: string, f: string)
    ensures Join([a, b, c, d, e, f], "\t") == a + "\t" + b + "\t" + c + "\t" + d + "\t" + e + "\t" + f
  {
    JoinCons(a, [b, c, d, e, f], "\t");
    JoinCons(b, [c, d, e, f], "\t");
    JoinCons(c, [d, e, f], "\t");
    JoinCons(d, [e, f], "\t");
    JoinCons(e, [f], "\t");
  }

  lemma DigitsLackTab(s: string)
    requires IsDigits(s)
    ensures '\t' !in s
  {
    assert forall k :: 0 <= k < |s| ==> s[k] != '\t';
  }

  /** A written line, read back by the converter's own first pass, has "+"
      as its fourth field. */
  lemma CravatLinePlus(n: nat, fields: seq<string>, cs: Columns)
    requires Fits(fields, cs)
    requires forall i :: 0 <= i < |fields| ==> '\t' !in fields[i]
    ensures PlusStrand(Fields(CravatLine(n, fields, cs)))
  {
    var num, c, p := NatToString(n), fields[cs.chr], fields[cs.pos];
    var x := num + "\t" + c + "\t" + p;
    var q := "\t" + fields[cs.ref] + "\t" + fields[cs.alt] + "\n";
    SixCells(num, c, p, "+", fields[cs.ref], fields[cs.alt]);
    assert CravatLine(n, fields, cs) == x + "\t+" + q;
    DigitsLackTab(num);
    SplitJoin([num, c, p], '\t');
    JoinCons(num, [c, p], "\t");
    JoinCons(c, [p], "\t");
    assert Join([num, c, p], "\t") == x;
    assert x[0] == num[0] && IsDigit(num[0]);
    PlusAfterThree(x, q);
  }

  /** A line made of three tab-separated fields, a tab, "+" and a tail
      that starts with a tab has "+" as its fourth field once stripped and
      split, whatever whitespace the tail ends in. */
  lemma PlusAfterThree(x: string, q: string)
    requires x != [] && !IsSpace(x[0]) && |Split(x, '\t')| == 3
    requires q != [] && q[0] == '\t'
    ensures PlusStrand(Fields(x + "\t+" + q))
  {
    var line := x + "\t+" + q;
    assert line[0] == x[0];
    assert TrimLeft(line) == line;
    TrimRightAfter(x + "\t+", q);
    var t := TrimRight(q);
    TrimRightShape(q);
    assert Strip(line) == x + ['\t'] + ("+" + t);
    SplitConcat(x, "+" + t, '\t');
    SplitPrependChar('+', t, '\t');
    assert Split(t, '\t')[0] == "" by {
      if t != [] {
        assert t[0] == q[0];
      }
    }
    assert ("+" + t) == ['+'] + t;
  }

  /** The converter skips its own output: once it has written two lines, a
      second conversion of the file it wrote finds a "+" in the fourth
      field and writes nothing. */
  lemma OutputNotReconverted(lines: seq<string>)
    requires CravatOutput(lines).Some? && |CravatOutput(lines).value.lines| >= 2
    ensures CravatOutput(CravatOutput(lines).value.lines) == None
  {
    var h := Fields(HeaderLine(lines));
    var cs := CgiColumns(h).value;
    var rows := DataRows(lines);
    var out := CravatOutput(lines).value.lines;
    CravatRowsLines(rows, cs);
    DataRowsAt(lines);
    SplitPiecesLackSeparator(Strip(lines[2]), '\t');
    CravatLinePlus(2, rows[1], cs);
    assert PlusStrand(Fields(out[1]));
  }

  // ---------------------------------------------------------------------
  // The chasm option and the annotators of run_cravat (lines 54-103)

  /** The chasm module the analysis uses (lines 57-73): "chasmplus_" and the
      abbreviation for a key or a value of the cancer-type table, and the
      pan-cancer "chasmplus" for no input, blank input and anything else. */
  function ChasmOption(input: Option<string>): (r: string)
    ensures input.Some? && Abbreviation(input.value).Some? ==> r == "chasmplus_" + Abbreviation(input.value).value
    ensures (input.None? || Abbreviation(input.value).None?) ==> r == "chasmplus"
  {
    match input
    case None => "chasmplus"
    case Some(s) =>
      if s in Abbreviations() then "chasmplus_" + s
      else if s in Names() then NameToAbbreviation(s); "chasmplus_" + KeyOf(Table, s).value
      else if Strip(s) == "" then "chasmplus"
      else "chasmplus"
  }

  /** The chasm option names a cancer type exactly when the input is a key
      or a value of the table, and the type it names is a key. */
  lemma ChasmOptionSpec(input: Option<string>)
    ensures ChasmOption(input) != "chasmplus" <==> input.Some? && (input.value in Abbreviations() || input.value in Names())
    ensures ChasmOption(input) != "chasmplus" ==>
              StartsWith(ChasmOption(input), "chasmplus_") && ChasmOption(input)[10..] in Abbreviations()
    ensures input.Some? && input.value in Abbreviations() ==> ChasmOption(input) == "chasmplus_" + input.value
  {
    if input.Some? {
      AbbreviationSpec(input.value);
      if Abbreviation(input.value).Some? {
        var a := Abbreviation(input.value).value;
        assert ("chasmplus_" + a)[10..] == a;
        assert "chasmplus_" + a != "chasmplus";
      }
    }
  }

  /** Where the CGI analysis of analysis/driver_mutations.py resolves a
      cancer type, the chasm option names the same type; where it fails,
      this analysis falls back to pan-cancer instead. */
  lemma ChasmAgreesWithCgi(input: string)
    ensures ResolveCancerType(input).Ok? ==> ChasmOption(Some(input)) == "chasmplus_" + ResolveCancerType(input).value
    ensures ResolveCancerType(input).Err? ==> ChasmOption(Some(input)) == "chasmplus"
  {
  }

  /** The annotator list (lines 82-86): both branches add the chasm option
      after "pubmed". */
  method AnnotatorList(chasm: string) returns (r: seq<string>)
    ensures r == ["pubmed", chasm]
  {
    r := ["pubmed"];
    if chasm != "chasmplus" {
      r := r + [chasm];
    } else {
      r := r + [chasm];
    }
  }

  /** The commands `run_cravat` issues (lines 75-93), in order: the base
      install, the annotator install, and the run.  The module it installs
      as the chasm annotator is the one it runs with, on hg38, with Excel
      output into the output directory. */
  method RunCravat(inputFile: string, cancerType: Option<string>, outputDir: string)
    returns (base: seq<string>, install: seq<string>, run: seq<string>)
    ensures base == ["oc", "module", "install-base"]
    ensures install == ["oc", "module", "install", "vest", "pubmed", ChasmOption(cancerType)]
    ensures |run| == 12
    ensures install[5] == run[7] && run[6] == install[4]
    ensures run[..3] == ["oc", "run", inputFile] && run[3..5] == ["-l", "hg38"]
    ensures run[5..8] == ["-a", "pubmed", ChasmOption(cancerType)]
    ensures run[8..] == ["-t", "excel", "-d", outputDir]
  {
    var chasm := ChasmOption(cancerType);
    base := ["oc", "module", "install-base"];
    install := ["oc", "module", "install", "vest", "pubmed", chasm];
    var annotators := AnnotatorList(chasm);
    run := ["oc", "run", inputFile, "-l", "hg38", "-a"] + annotators + ["-t", "excel", "-d", outputDir];
  }

  // ---------------------------------------------------------------------
  // save_filtered_gene_pvalues_to_txt (lines 106-160)

  /** One row of the "Variant" sheet: its non-empty cells as text, and the
      "P-value" cell as `pd.to_numeric(errors="coerce")` reads it (None for
      NaN). */
  datatype VariantRow = VariantRow(cells: map<string, string>, pValue: Option<real>)

  /** The sheet: its column names and its rows. */
  datatype Sheet = Sheet(columns: seq<string>, rows: seq<VariantRow>)

  /** A row of the table written: driver gene, p-value, nucleotide change
      and mutation summary. */
  datatype DriverRow = DriverRow(gene: string, pValue: real, change: string, summary: string)

  /** `astype(str)` of a cell; an empty cell is NaN, written "nan". */
  function CellText(row: VariantRow, column: string): string {
    if column in row.cells then row.cells[column] else "nan"
  }

  /** The row passes `df["P-value"] < 0.05`; NaN never does. */
  predicate IsSignificant(row: VariantRow) {
    row.pValue.Some? && row.pValue.value < 0.05
  }

  /** The rows the filter keeps, in sheet order. */
  function Significant(rows: seq<VariantRow>): seq<VariantRow>
    decreases |rows|
  {
    if rows == [] then []
    else
      var last := rows[|rows| - 1];
      Significant(rows[..|rows| - 1]) + (if IsSignificant(last) then [last] else [])
  }

  /** Every kept row has a p-value below 0.05, and each row is kept as often
      as it occurs exactly when it does. */
  lemma {:induction false} SignificantSpec(rows: seq<VariantRow>)
    ensures forall row :: row in Significant(rows) ==> IsSignificant(row)
    ensures forall row :: Count(Significant(rows), row) == if IsSignificant(row) then Count(rows, row) else 0
    decreases |rows|
  {
    if rows != [] {
      var init := rows[..|rows| - 1];
      var last := rows[|rows| - 1];
      SignificantSpec(init);
      forall row
        ensures Count(Significant(rows), row) == if IsSignificant(row) then Count(rows, row) else 0
      {
        var s := Significant(init) + (if IsSignificant(last) then [last] else []);
        if IsSignificant(last) {
          assert s[..|s| - 1] == Significant(init);
        } else {
          assert s == Significant(init);
        }
      }
    }
  }

  /** "Chrom:Position Ref>Alt" (lines 130-141). */
  function MutationSummary(chrom: string, position: string, refBase: string, altBase: string): string {
    chrom + ":" + position + " " + (refBase + ">" + altBase)
  }

  /** The written row of a kept sheet row; an empty gene cell is written
      empty. */
  function SummaryRow(row: VariantRow): DriverRow
    requires IsSignificant(row)
  {
    var change := CellText(row, "Ref Base") + ">" + CellText(row, "Alt Base");
    DriverRow(if "Gene" in row.cells then row.cells["Gene"] else "", row.pValue.value, change,
              MutationSummary(CellText(row, "Chrom"), CellText(row, "Position"), CellText(row, "Ref Base"), CellText(row, "Alt Base")))
  }

  /** The rows of the table written: one per kept row, in order. */
  function SummaryRows(rows: seq<VariantRow>): (r: seq<DriverRow>)
    ensures |r| == |Significant(rows)|
    ensures forall i :: 0 <= i < |r| ==>
              IsSignificant(Significant(rows)[i]) && r[i] == SummaryRow(Significant(rows)[i])
  {
    var kept := Significant(rows);
    SignificantSpec(rows);
    seq(|kept|, i requires 0 <= i < |kept| => SummaryRow(kept[i]))
  }

  /** The four columns the mutation text is built from (lines 122-127). */
  predicate MutationColumns(columns: seq<string>) {
    "Ref Base" in columns && "Alt Base" in columns && "Chrom" in columns && "Position" in columns
  }

  /** The table `save_filtered_gene_pvalues_to_txt` writes, Ok(None) when
      it writes nothing (no sheet file, no "P-value" column, or one of the
      four mutation columns missing), and KeyError when "Gene" is missing
      from the selection at line 143. */
  function SummaryTable(sheet: Option<Sheet>): (r: Result<Option<seq<DriverRow>>>)
    ensures r == Ok(None) <==>
              sheet.None? || "P-value" !in sheet.value.columns || !MutationColumns(sheet.value.columns)
    ensures r.Err? <==>
              sheet.Some? && "P-value" in sheet.value.columns && MutationColumns(sheet.value.columns) &&
              "Gene" !in sheet.value.columns
    ensures r.Err? ==> r.error == KeyError
    ensures r.Ok? && r.value.Some? <==>
              sheet.Some? && "P-value" in sheet.value.columns && MutationColumns(sheet.value.columns) &&
              "Gene" in sheet.value.columns
    ensures r.Ok? && r.value.Some? ==>
              r.value.value == SummaryRows(sheet.value.rows) &&
              forall i :: 0 <= i < |r.value.value| ==> r.value.value[i].pValue < 0.05
  {
    match sheet
    case None => Ok(None)
    case Some(s) =>
      if "P-value" !in s.columns then Ok(None)
      else if !MutationColumns(s.columns) then Ok(None)
      else if "Gene" !in s.columns then Err(KeyError)
      else Ok(Some(SummaryRows(s.rows)))
  }

  /** The summary splits back into its parts when none of them contains a
      space, the chromosome and position no ':', and the bases no '>'. */
  lemma MutationSummaryRoundTrip(chrom: string, position: string, refBase: string, altBase: string)
    requires ' ' !in chrom && ' ' !in position && ' ' !in refBase && ' ' !in altBase
    requires ':' !in chrom && ':' !in position && '>' !in refBase && '>' !in altBase
    ensures var parts := Split(MutationSummary(chrom, position, refBase, altBase), ' ');
            parts == [chrom + ":" + position, refBase + ">" + altBase] &&
            Split(parts[0], ':') == [chrom, position] &&
            Split(parts[1], '>') == [refBase, altBase]
  {
    var site := chrom + ":" + position;
    var change := refBase + ">" + altBase;
    SplitAfterPiece(site, change, ' ');
    assert MutationSummary(chrom, position, refBase, altBase) == site + [' '] + change;
    SplitNoSeparator(change, ' ');
    SplitAfterPiece(chrom, position, ':');
    SplitNoSeparator(position, ':');
    assert site == chrom + [':'] + position;
    SplitAfterPiece(refBase, altBase, '>');
    SplitNoSeparator(altBase, '>');
    assert change == refBase + ['>'] + altBase;
  }

  /** `<input basename without extension>_cravat_drivers.txt` in the output
      directory (lines 108-112). */
  function CravatDriversPath(inputFile: string, outputDir: string): string {
    PathJoin(outputDir, SplitExtRoot(BaseName(inputFile)) + "_cravat_drivers.txt")
  }

  /** The file name is the input's base name without extension followed by
      "_cravat_drivers.txt", and lies directly in the output directory. */
  lemma CravatDriversPathShape(inputFile: string, outputDir: string)
    ensures var name := SplitExtRoot(BaseName(inputFile)) + "_cravat_drivers.txt";
            EndsWith(CravatDriversPath(inputFile, outputDir), name) &&
            BaseName(CravatDriversPath(inputFile, outputDir)) == name &&
            StartsWith(BaseName(inputFile), name[..|name| - 19])
  {
    var root := SplitExtRoot(BaseName(inputFile));
    var name := root + "_cravat_drivers.txt";
    assert name[..|name| - 19] == root;
    DriversNameLacksSlash(inputFile);
    JoinedName(outputDir, name);
  }

  /** The file name holds no '/': the base name has none, and the root is a
      prefix of it. */
  lemma DriversNameLacksSlash(inputFile: string)
    ensures '/' !in SplitExtRoot(BaseName(inputFile)) + "_cravat_drivers.txt"
  {
    var b := BaseName(inputFile);
    var root := SplitExtRoot(b);
    assert forall k :: 0 <= k < |root| ==> root[k] == b[k];
    assert '/' !in root;
    assert '/' !in "_cravat_drivers.txt";
  }

  /** `os.path.join(dir, name)` ends in `name` and has it as its base name
      when `name` has no '/'. */
  lemma JoinedName(dir: string, name: string)
    requires '/' !in name
    ensures EndsWith(PathJoin(dir, name), name)
    ensures BaseName(PathJoin(dir, name)) == name
  {
    var d := if dir == [] || dir[|dir| - 1] == '/' then dir else dir + "/";
    assert PathJoin(dir, name) == d + name;
    assert (d + name)[|d|..] == name;
    BaseNameAfterSlash(d, name);
  }

  /** The base name of `d + name` is `name` when `d` is empty or ends in '/'
      and `name` has no '/'. */
  lemma {:induction false} BaseNameAfterSlash(d: string, name: string)
    requires d == [] || d[|d| - 1] == '/'
    requires '/' !in name
    ensures BaseName(d + name) == name
    decreases |name|
  {
    var s := d + name;
    if name == [] {
      assert s == d;
    } else {
      var init := name[..|name| - 1];
      assert s[..|s| - 1] == d + init;
      assert s[|s| - 1] == name[|name| - 1] != '/';
      assert name == init + [name[|name| - 1]];
      BaseNameAfterSlash(d, init);
      assert BaseName(s) == BaseName(d + init) + [name[|name| - 1]];
      assert init + [name[|name| - 1]] == name;
    }
  }
}
