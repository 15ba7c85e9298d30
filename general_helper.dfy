/** analysis/general_helper.py: the presence table, the renaming of the
    reference sample in a MEGA file, and the column check of an input file.
    Tables are the rows pandas reads; printing is not modelled. */
module GeneralHelper {
  import opened Wrappers
  import opened Text

  // ---------------------------------------------------------------------
  // process_clone_presence (lines 10-15)

  /** A row of the clone table: the first column, then the numeric cells. */
  datatype PresenceRow = PresenceRow(name: string, cells: seq<real>)

  /** `lambda x: 1 if x > 0 else 0` */
  function Present(x: real): real {
    if x > 0.0 then 1.0 else 0.0
  }

  /** `df.iloc[:, 1:].map(...)`: every cell after the first column becomes 1
      when positive and 0 otherwise. */
  function ProcessClonePresence(rows: seq<PresenceRow>): (r: seq<PresenceRow>)
    ensures |r| == |rows|
    ensures forall i :: 0 <= i < |rows| ==> r[i].name == rows[i].name && |r[i].cells| == |rows[i].cells|
    ensures forall i, j :: 0 <= i < |rows| && 0 <= j < |rows[i].cells| ==>
              (r[i].cells[j] == 1.0 <==> rows[i].cells[j] > 0.0) && (r[i].cells[j] == 0.0 <==> rows[i].cells[j] <= 0.0)
  {
    seq(|rows|, i requires 0 <= i < |rows| =>
      PresenceRow(rows[i].name, seq(|rows[i].cells|, j requires 0 <= j < |rows[i].cells| => Present(rows[i].cells[j]))))
  }

  /** Processing a processed table changes nothing: 0 and 1 map to
      themselves. */
  lemma ProcessClonePresenceIdempotent(rows: seq<PresenceRow>)
    ensures ProcessClonePresence(ProcessClonePresence(rows)) == ProcessClonePresence(rows)
  {
    var once := ProcessClonePresence(rows);
    var twice := ProcessClonePresence(once);
    forall i | 0 <= i < |rows| ensures twice[i] == once[i] {
      assert twice[i].cells == once[i].cells;
    }
  }

  // ---------------------------------------------------------------------
  // rename_hg19_to_normal (lines 18-31)

  /** `rename_hg19_to_normal` over the lines `readlines` returns: the fifth
      line, if there is one, has every "#hg19" replaced by "#Normal". */
  method RenameHg19ToNormal(lines: seq<string>) returns (out: seq<string>)
    ensures |out| == |lines|
    ensures forall i :: 0 <= i < |lines| && i != 4 ==> out[i] == lines[i]
    ensures |lines| >= 5 ==> out[4] == ReplaceAll(lines[4], "#hg19", "#Normal")
  {
    out := lines;
    if |out| >= 5 {
      if Contains(out[4], "#hg19") {
        out := out[4 := ReplaceAll(out[4], "#hg19", "#Normal")];
      } else {
        ReplaceAbsent(out[4], "#hg19", "#Normal");
      }
    }
  }

  // ---------------------------------------------------------------------
  // check_input_file_columns (lines 66-92)

  const RequiredColumns: seq<string> := ["CHR", "Position", "Wild", "Mutant", "Trinucletide"]

  /** A column that is not required but looks like a read count. */
  predicate Misnamed(col: string) {
    col !in RequiredColumns && (Contains(col, "REF") || Contains(col, "ALT"))
  }

  /** The columns pass when every required column is present and no other
      column contains "REF" or "ALT". */
  predicate ColumnsPass(columns: seq<string>) {
    (forall r :: r in RequiredColumns ==> r in columns) &&
    (forall i :: 0 <= i < |columns| ==> !Misnamed(columns[i]))
  }

  /** `check_input_file_columns`: `columns` is None when reading the file
      raises, which the `except` turns into a failed check. */
  method CheckInputFileColumns(columns: Option<seq<string>>) returns (passed: bool)
    ensures passed <==> columns.Some? && ColumnsPass(columns.value)
  {
    if columns.None? {
      return false;
    }
    var cols := columns.value;
    passed := true;
    for k := 0 to |RequiredColumns|
      invariant passed <==> forall j :: 0 <= j < k ==> RequiredColumns[j] in cols
    {
      if RequiredColumns[k] !in cols {
        passed := false;
      }
    }
    var allRequired := passed;
    for i := 0 to |cols|
      invariant passed <==> allRequired && forall j :: 0 <= j < i ==> !Misnamed(cols[j])
    {
      var col := cols[i];
      if col !in RequiredColumns {
        if Contains(col, "REF") {
          passed := false;
        } else if Contains(col, "ALT") {
          passed := false;
        }
      }
    }
  }
}
