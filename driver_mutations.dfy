/** The line converters of analysis/driver_mutations.py: the CGI input
    writer `convert_to_cgi_format` (lines 14-39), the cancer-type resolution
    of `run_cgi` (lines 184-189), and the driver filter and output file of
    `process_alterations_file` (lines 115-162). */
module DriverMutations {
  import opened Wrappers
  import opened Text
  import opened CancerTypes

  // ---------------------------------------------------------------------
  // convert_to_cgi_format

  /** `header.index(up) if up in header else header.index(low)`; None where
      `index` raises ValueError. */
  function ColumnIndex(header: seq<string>, up: string, low: string): (r: Option<nat>)
    ensures r.Some? <==> up in header || low in header
    ensures r.Some? ==> r.value < |header| && header[r.value] == (if up in header then up else low)
    ensures r.Some? ==> header[r.value] !in header[..r.value]
  {
    if up in header then IndexOf(header, up) else IndexOf(header, low)
  }

  /** The positions of the four columns that the converter copies. */
  datatype Columns = Columns(chr: nat, pos: nat, ref: nat, alt: nat)

  /** The header the converter reads: the first line, or "" for an empty file
      (where `readline` returns ""). */
  function HeaderLine(lines: seq<string>): string {
    if lines == [] then "" else lines[0]
  }

  /** The four column positions, or None when one of the `index` calls raises. */
  function CgiColumns(header: seq<string>): Option<Columns> {
    var c := ColumnIndex(header, "CHR", "chr");
    var p := ColumnIndex(header, "POS", "pos");
    var r := ColumnIndex(header, "REF", "ref");
    var a := ColumnIndex(header, "ALT", "alt");
    if c.None? || p.None? || r.None? || a.None? then None
    else Some(Columns(c.value, p.value, r.value, a.value))
  }

  /** The row has a field at each of the four positions. */
  predicate Fits(fields: seq<string>, cs: Columns) {
    cs.chr < |fields| && cs.pos < |fields| && cs.ref < |fields| && cs.alt < |fields|
  }

  /** `"\t".join(cells) + "\n"` */
  function TabLine(cells: seq<string>): string {
    Join(cells, "\t") + "\n"
  }

  /** The line written for a row that has all four fields. */
  function CgiLine(fields: seq<string>, cs: Columns): string
    requires Fits(fields, cs)
  {
    TabLine([fields[cs.chr], fields[cs.pos], fields[cs.ref], fields[cs.alt]])
  }

  /** The fields of every data line (all lines after the header). */
  function DataRows(lines: seq<string>): seq<seq<string>>
    decreases |lines|
  {
    if |lines| <= 1 then [] else DataRows(lines[..|lines| - 1]) + [Fields(lines[|lines| - 1])]
  }

  /** Reading line `i` adds its fields as the next data row. */
  lemma DataRowsStep(lines: seq<string>, i: nat)
    requires 1 <= i < |lines|
    ensures DataRows(lines[..i + 1]) == DataRows(lines[..i]) + [Fields(lines[i])]
  {
    assert lines[..i + 1][..i] == lines[..i];
  }

  lemma {:induction false} DataRowsAt(lines: seq<string>)
    ensures |DataRows(lines)| == if lines == [] then 0 else |lines| - 1
    ensures forall i :: 0 <= i < |DataRows(lines)| ==> DataRows(lines)[i] == Fields(lines[i + 1])
    decreases |lines|
  {
    if |lines| > 1 {
      var init := lines[..|lines| - 1];
      DataRowsAt(init);
      assert forall i :: 0 <= i < |init| ==> init[i] == lines[i];
    }
  }

  /** What the row loop writes for data rows with the fields `rows`: one line
      per row until a row lacks a field, where `fields[i]` raises IndexError. */
  function CgiRows(rows: seq<seq<string>>, cs: Columns): Written
    decreases |rows|
  {
    if rows == [] then Written([], None)
    else
      var w := CgiRows(rows[..|rows| - 1], cs);
      var fields := rows[|rows| - 1];
      if w.raised.Some? then w
      else if Fits(fields, cs) then Written(w.lines + [CgiLine(fields, cs)], None)
      else Written(w.lines, Some(IndexError))
  }

  /** The output file of `convert_to_cgi_format` for the input file `lines`. */
  function CgiOutput(lines: seq<string>): Written {
    match CgiColumns(Fields(HeaderLine(lines)))
    case None => Written([], Some(ValueError))
    case Some(cs) =>
      var w := CgiRows(DataRows(lines), cs);
      Written(["chr\tpos\tref\talt\n"] + w.lines, w.raised)
  }

  /** The row loop (lines 31-39) over the lines after the header. */
  method WriteCgiRows(lines: seq<string>, cs: Columns) returns (w: Written)
    ensures w == CgiRows(DataRows(lines), cs)
  {
    if lines == [] {
      return Written([], None);
    }
    var out: seq<string> := [];
    var i := 1;
    while i < |lines|
      invariant 1 <= i <= |lines|
      invariant CgiRows(DataRows(lines[..i]), cs) == Written(out, None)
    {
      var fields := Fields(lines[i]);
      CgiRowsAppend(lines, i, cs, out);
      if !Fits(fields, cs) {
        CgiRowsSticky(lines, i + 1, cs);
        return Written(out, Some(IndexError));
      }
      out := out + [CgiLine(fields, cs)];
      i := i + 1;
    }
    assert lines[..i] == lines;
    w := Written(out, None);
  }

  /** One more line read by the row loop: a line for it, or IndexError. */
  lemma CgiRowsAppend(lines: seq<string>, i: nat, cs: Columns, out: seq<string>)
    requires 1 <= i < |lines| && CgiRows(DataRows(lines[..i]), cs) == Written(out, None)
    ensures Fits(Fields(lines[i]), cs) ==>
              CgiRows(DataRows(lines[..i + 1]), cs) == Written(out + [CgiLine(Fields(lines[i]), cs)], None)
    ensures !Fits(Fields(lines[i]), cs) ==> CgiRows(DataRows(lines[..i + 1]), cs) == Written(out, Some(IndexError))
  {
    DataRowsStep(lines, i);
  }

  /** Once a row has raised IndexError, the lines after it change nothing. */
  lemma {:induction false} CgiRowsSticky(lines: seq<string>, j: nat, cs: Columns)
    requires j <= |lines| && CgiRows(DataRows(lines[..j]), cs).raised.Some?
    ensures CgiRows(DataRows(lines), cs) == CgiRows(DataRows(lines[..j]), cs)
    decreases |lines|
  {
    if j == |lines| {
      assert lines[..j] == lines;
    } else {
      var init := lines[..|lines| - 1];
      assert init[..j] == lines[..j];
      CgiRowsSticky(init, j, cs);
    }
  }

  /** `convert_to_cgi_format` (lines 14-39). */
  method ConvertToCgiFormat(lines: seq<string>) returns (w: Written)
    ensures w == CgiOutput(lines)
  {
    var header := Fields(HeaderLine(lines));
    var cols := CgiColumns(header);
    if cols.None? {
      return Written([], Some(ValueError));
    }
    var rest := WriteCgiRows(lines, cols.value);
    w := Written(["chr\tpos\tref\talt\n"] + rest.lines, rest.raised);
  }

  /** The row loop raises IndexError exactly when some row lacks a field;
      it then stops at the first such row, having written one line for each
      row before it, and otherwise writes one line per row. */
  lemma {:induction false} CgiRowsOutcome(rows: seq<seq<string>>, cs: Columns)
    ensures CgiRows(rows, cs).raised.None? <==> forall i :: 0 <= i < |rows| ==> Fits(rows[i], cs)
    ensures CgiRows(rows, cs).raised.None? ==> |CgiRows(rows, cs).lines| == |rows|
    ensures CgiRows(rows, cs).raised.Some? ==>
              (CgiRows(rows, cs).raised == Some(IndexError) &&
               |CgiRows(rows, cs).lines| < |rows| && !Fits(rows[|CgiRows(rows, cs).lines|], cs))
    decreases |rows|
  {
    if rows != [] {
      var init := rows[..|rows| - 1];
      CgiRowsOutcome(init, cs);
      assert forall i :: 0 <= i < |init| ==> init[i] == rows[i];
    }
  }

  /** Line i of the row loop's output is built from row i's fields in the
      order chr, pos, ref, alt. */
  lemma {:induction false} CgiRowsLines(rows: seq<seq<string>>, cs: Columns)
    ensures |CgiRows(rows, cs).lines| <= |rows|
    ensures forall i :: 0 <= i < |CgiRows(rows, cs).lines| ==>
              Fits(rows[i], cs) && CgiRows(rows, cs).lines[i] == CgiLine(rows[i], cs)
    decreases |rows|
  {
    if rows != [] {
      var init := rows[..|rows| - 1];
      CgiRowsLines(init, cs);
      CgiRowsOutcome(init, cs);
      assert forall i :: 0 <= i < |init| ==> init[i] == rows[i];
    }
  }

  /** Some column is missing from the header in both spellings. */
  predicate MissingColumn(h: seq<string>) {
    || ("CHR" !in h && "chr" !in h)
    || ("POS" !in h && "pos" !in h)
    || ("REF" !in h && "ref" !in h)
    || ("ALT" !in h && "alt" !in h)
  }

  /** The converter fails with ValueError, writing nothing, exactly when the
      header lacks one of the four columns in either spelling (always so for
      an empty file); otherwise it writes the fixed header and then what the
      row loop writes for the remaining lines. */
  lemma CgiOutputSpec(lines: seq<string>)
    ensures CgiOutput(lines).raised == Some(ValueError) <==> MissingColumn(Fields(HeaderLine(lines)))
    ensures lines == [] ==> CgiOutput(lines) == Written([], Some(ValueError))
    ensures CgiOutput(lines).raised == Some(ValueError) ==> CgiOutput(lines).lines == []
    ensures !MissingColumn(Fields(HeaderLine(lines))) ==>
              (lines != [] && CgiColumns(Fields(lines[0])).Some? &&
               CgiOutput(lines).lines == ["chr\tpos\tref\talt\n"] + CgiRows(DataRows(lines), CgiColumns(Fields(lines[0])).value).lines)
  {
    var h := Fields(HeaderLine(lines));
    if lines == [] {
      assert h == [""];
      assert "chr" !in h && "CHR" !in h;
    }
    if CgiColumns(h).Some? {
      CgiRowsOutcome(DataRows(lines), CgiColumns(h).value);
    }
  }

  /** Reading a written data line back (dropping its "\n" and splitting on
      tabs) gives the chr, pos, ref and alt fields of its row. */
  lemma CgiLineRoundTrip(fields: seq<string>, cs: Columns)
    requires Fits(fields, cs)
    requires forall i :: 0 <= i < |fields| ==> '\t' !in fields[i]
    ensures EndsWith(CgiLine(fields, cs), "\n")
    ensures Split(CgiLine(fields, cs)[..|CgiLine(fields, cs)| - 1], '\t') ==
              [fields[cs.chr], fields[cs.pos], fields[cs.ref], fields[cs.alt]]
  {
    TabLineRoundTrip([fields[cs.chr], fields[cs.pos], fields[cs.ref], fields[cs.alt]]);
  }

  lemma TabLineRoundTrip(cells: seq<string>)
    requires |cells| >= 1 && forall i :: 0 <= i < |cells| ==> '\t' !in cells[i]
    ensures EndsWith(TabLine(cells), "\n")
    ensures Split(TabLine(cells)[..|TabLine(cells)| - 1], '\t') == cells
  {
    var j := Join(cells, "\t");
    assert TabLine(cells)[..|TabLine(cells)| - 1] == j;
    SplitJoin(cells, '\t');
  }

  // ---------------------------------------------------------------------
  // Cancer type in run_cgi

  /** The `if`/`elif` of `run_cgi` (lines 184-189): the abbreviation, or
      UnboundLocalError at line 191 when the input is neither a key nor a
      value of the table. */
  function ResolveCancerType(input: string): (r: Result<string>)
    ensures r.Ok? <==> input in Abbreviations() || input in Names()
    ensures r.Err? ==> r.error == UnboundLocalError
    ensures r.Ok? ==> r.value in Abbreviations()
    ensures input in Abbreviations() ==> r == Ok(input)
  {
    AbbreviationSpec(input);
    match Abbreviation(input)
    case Some(a) => Ok(a)
    case None => Err(UnboundLocalError)
  }

  // ---------------------------------------------------------------------
  // process_alterations_file

  /** One row of alterations.tsv as `csv.DictReader` yields it. */
  type AlterationRow = map<string, string>

  /** `row.get("CGI-Oncogenic Prediction", "").startswith("driver")` */
  predicate IsDriverRow(row: AlterationRow) {
    var p := if "CGI-Oncogenic Prediction" in row then row["CGI-Oncogenic Prediction"] else "";
    StartsWith(p, "driver")
  }

  /** The row holds every column the formatted line reads. */
  predicate HasAlterationColumns(row: AlterationRow) {
    && "CGI-Gene" in row && "CGI-Protein Change" in row && "REF" in row && "ALT" in row
    && "CGI-Type" in row && "chr" in row && "pos" in row
  }

  /** The five cells of the formatted line of a driver row. */
  function AlterationCells(row: AlterationRow): seq<string>
    requires HasAlterationColumns(row)
  {
    [row["CGI-Gene"], row["CGI-Protein Change"], row["REF"] + ">" + row["ALT"],
     row["CGI-Type"], row["chr"] + ":" + row["pos"]]
  }

  /** The rows the filter keeps, in file order. */
  function DriverRows(rows: seq<AlterationRow>): seq<AlterationRow>
    decreases |rows|
  {
    if rows == [] then []
    else
      var last := rows[|rows| - 1];
      DriverRows(rows[..|rows| - 1]) + (if IsDriverRow(last) then [last] else [])
  }

  /** Every kept row is a driver row, and each row is kept as often as it
      occurs exactly when it is a driver row. */
  lemma {:induction false} DriverRowsSpec(rows: seq<AlterationRow>)
    ensures forall row :: row in DriverRows(rows) ==> IsDriverRow(row)
    ensures forall row :: Count(DriverRows(rows), row) == if IsDriverRow(row) then Count(rows, row) else 0
    decreases |rows|
  {
    if rows != [] {
      var init := rows[..|rows| - 1];
      var last := rows[|rows| - 1];
      DriverRowsSpec(init);
      forall row
        ensures Count(DriverRows(rows), row) == if IsDriverRow(row) then Count(rows, row) else 0
      {
        var d := DriverRows(init) + (if IsDriverRow(last) then [last] else []);
        if IsDriverRow(last) {
          assert d[..|d| - 1] == DriverRows(init);
        } else {
          assert d == DriverRows(init);
        }
      }
    }
  }

  /** The row loop (lines 121-135): the formatted lines of the driver rows,
      or KeyError when a driver row lacks a column the line reads. */
  method CollectDriverValues(rows: seq<AlterationRow>) returns (r: Result<seq<string>>)
    ensures r.Ok? <==> forall i :: 0 <= i < |DriverRows(rows)| ==> HasAlterationColumns(DriverRows(rows)[i])
    ensures r.Err? ==> r.error == KeyError
    ensures r.Ok? ==> |r.value| == |DriverRows(rows)|
    ensures r.Ok? ==> forall i :: 0 <= i < |r.value| ==> r.value[i] == Join(AlterationCells(DriverRows(rows)[i]), "\t")
  {
    var values: seq<string> := [];
    var k := 0;
    while k < |rows|
      invariant 0 <= k <= |rows|
      invariant |values| == |DriverRows(rows[..k])|
      invariant forall i :: 0 <= i < |values| ==>
                  HasAlterationColumns(DriverRows(rows[..k])[i]) &&
                  values[i] == Join(AlterationCells(DriverRows(rows[..k])[i]), "\t")
    {
      var row := rows[k];
      assert rows[..k + 1][..k] == rows[..k];
      if IsDriverRow(row) {
        if !HasAlterationColumns(row) {
          DriverRowsPrefix(rows, k + 1);
          assert DriverRows(rows[..k + 1])[|values|] == row;
          return Err(KeyError);
        }
        values := values + [Join(AlterationCells(row), "\t")];
      }
      k := k + 1;
    }
    assert rows[..k] == rows;
    return Ok(values);
  }

  /** The rows kept from a prefix are a prefix of the rows kept from the whole. */
  lemma {:induction false} DriverRowsPrefix(rows: seq<AlterationRow>, k: nat)
    requires k <= |rows|
    ensures |DriverRows(rows[..k])| <= |DriverRows(rows)|
    ensures DriverRows(rows)[..|DriverRows(rows[..k])|] == DriverRows(rows[..k])
    decreases |rows| - k
  {
    if k < |rows| {
      DriverRowsPrefix(rows, k + 1);
      assert rows[..k + 1][..k] == rows[..k];
    } else {
      assert rows[..k] == rows;
    }
  }

  /** Reading a formatted line back on tabs gives gene, protein change,
      REF>ALT, mutation type and chr:pos, when no cell contains a tab. */
  lemma AlterationLineRoundTrip(row: AlterationRow)
    requires HasAlterationColumns(row)
    requires forall c :: c in row.Values ==> '\t' !in c
    ensures Split(Join(AlterationCells(row), "\t"), '\t') == AlterationCells(row)
  {
    var cells := AlterationCells(row);
    assert row["REF"] in row.Values && row["ALT"] in row.Values;
    assert row["chr"] in row.Values && row["pos"] in row.Values;
    assert row["CGI-Gene"] in row.Values && row["CGI-Protein Change"] in row.Values && row["CGI-Type"] in row.Values;
    assert '\t' !in row["REF"] + ">" + row["ALT"];
    assert '\t' !in row["chr"] + ":" + row["pos"];
    SplitJoin(cells, '\t');
  }

  /** `<basename without ".txt">_<cancer type with '_' for ' '>_drivers.txt`
      (lines 154-155). */
  function DriversFileName(mutationFile: string, cancerType: string): string {
    ReplaceAll(BaseName(mutationFile), ".txt", "") + "_" + ReplaceAll(cancerType, " ", "_") + "_drivers.txt"
  }

  /** The name ends in "_drivers.txt", and the part naming the cancer type
      has the type's length and no space. */
  lemma DriversFileNameShape(mutationFile: string, cancerType: string)
    ensures EndsWith(DriversFileName(mutationFile, cancerType), "_drivers.txt")
    ensures |DriversFileName(mutationFile, cancerType)| >= |cancerType| + 13
    ensures var n := DriversFileName(mutationFile, cancerType);
            var t := n[|n| - |"_drivers.txt"| - |cancerType|..|n| - |"_drivers.txt"|];
            t == ReplaceAll(cancerType, " ", "_") && ' ' !in t
  {
    ReplaceCharRemoves(cancerType, ' ', '_');
    var stem := ReplaceAll(BaseName(mutationFile), ".txt", "");
    var t := ReplaceAll(cancerType, " ", "_");
    var n := stem + "_" + t + "_drivers.txt";
    assert n[|n| - |"_drivers.txt"|..] == "_drivers.txt";
    assert n[|n| - |"_drivers.txt"| - |cancerType|..|n| - |"_drivers.txt"|] == t;
  }

  /** The header line of the drivers file (lines 158-159). */
  const DriversHeader: string := "Driver Gene\tDriver Protein Change\tMutation Nucleotide Change\tMutation Type\tMutation Summary\n"

  /** `process_alterations_file` (lines 115-162): the output path and the
      lines written to it, or the KeyError of the row loop, raised before
      the output file is opened. */
  method ProcessAlterationsFile(rows: seq<AlterationRow>, mutationFile: string, cancerType: string, targetDir: string)
    returns (r: Result<(string, seq<string>)>)
    ensures r.Err? <==> exists i :: 0 <= i < |DriverRows(rows)| && !HasAlterationColumns(DriverRows(rows)[i])
    ensures r.Ok? ==> r.value.0 == PathJoin(targetDir, DriversFileName(mutationFile, cancerType))
    ensures r.Ok? ==> |r.value.1| == |DriverRows(rows)| + 1
    ensures r.Ok? ==> r.value.1[0] == DriversHeader
    ensures r.Ok? ==> forall i :: 0 <= i < |DriverRows(rows)| ==> r.value.1[i + 1] == TabLine(AlterationCells(DriverRows(rows)[i]))
  {
    var values := CollectDriverValues(rows);
    if values.Err? {
      return Err(values.error);
    }
    var out := [DriversHeader];
    var i := 0;
    while i < |values.value|
      invariant 0 <= i <= |values.value| && |out| == i + 1
      invariant out[0] == DriversHeader
      invariant forall j :: 0 <= j < i ==> out[j + 1] == values.value[j] + "\n"
    {
      out := out + [values.value[i] + "\n"];
      i := i + 1;
    }
    forall j | 0 <= j < |DriverRows(rows)| ensures out[j + 1] == TabLine(AlterationCells(DriverRows(rows)[j])) {
      assert out[j + 1] == values.value[j] + "\n";
    }
    return Ok((PathJoin(targetDir, DriversFileName(mutationFile, cancerType)), out));
  }
}
