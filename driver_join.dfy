/** Joining genomic positions to driver genes: `parse_csv_files`,
    `process_driver_file` and `match_positions`. The three functions have
    the same text in analysis/driver_mutations.py (lines 206-274),
    plot_scripts/tree_func.py (lines 428-494) and plot_scripts/mut_func.py
    (lines 16-82), so one definition here models all three copies. */
module DriverJoin {
  import opened Wrappers
  import opened Text
  import opened Dicts

  /** One `(file_identifier, row[0], row[1])` tuple of `mutation_data`. */
  datatype Entry = Entry(file: string, col0: string, col1: string)

  /** A table as `pd.read_csv(header=None, na_values="NA",
      keep_default_na=False)` returns it: `width` columns, and each cell in
      its `str()` form, or None where pandas holds NaN. */
  datatype Frame = Frame(width: nat, rows: seq<seq<Option<string>>>)

  /** One "*.csv" file of the directory; `frame` is None when `read_csv`
      raises. */
  datatype CsvFile = CsvFile(path: string, frame: Option<Frame>)

  /** Every row of every table has one cell per column. */
  ghost predicate Rectangular(files: seq<CsvFile>) {
    forall i :: 0 <= i < |files| && files[i].frame.Some? ==>
      forall r :: 0 <= r < |files[i].frame.value.rows| ==>
        |files[i].frame.value.rows[r]| == files[i].frame.value.width
  }

  /** The row survives `dropna()`. */
  predicate Complete(row: seq<Option<string>>) {
    forall i :: 0 <= i < |row| ==> row[i].Some?
  }

  /** `os.path.basename(file_path).split("_")[0]` */
  function FileId(path: string): string {
    Split(BaseName(path), '_')[0]
  }

  // ---------------------------------------------------------------------
  // Positions of one third-column value

  /** The positions appended for one `;`-piece of the third column: a piece
      with '-' must be `base:range` and the range `start-end`; any other
      piece is kept as it is. */
  function PiecePositions(piece: string): Result<seq<string>> {
    if '-' !in piece then Ok([piece])
    else
      var halves := Split(piece, ':');
      if |halves| != 2 then Err(ValueError)
      else
        var ends := Split(halves[1], '-');
        if |ends| != 2 then Err(ValueError)
        else Ok([halves[0] + ":" + ends[0], halves[0] + ":" + ends[1]])
  }

  /** `positions` after the loop over the pieces, or the error of the first
      piece that cannot be unpacked. */
  function CellPositions(pieces: seq<string>): Result<seq<string>>
    decreases |pieces|
  {
    if pieces == [] then Ok([])
    else
      var init :- CellPositions(pieces[..|pieces| - 1]);
      var last :- PiecePositions(pieces[|pieces| - 1]);
      Ok(init + last)
  }

  /** A range piece `base:start-end` yields `base:start` and `base:end`. */
  lemma RangePiece(base: string, start: string, end: string)
    requires ':' !in base && ':' !in start && ':' !in end
    requires '-' !in start && '-' !in end
    ensures PiecePositions(base + ":" + start + "-" + end) == Ok([base + ":" + start, base + ":" + end])
  {
    var piece := base + ":" + start + "-" + end;
    assert piece[|base| + 1 + |start|] == '-';
    assert piece == base + [':'] + (start + "-" + end);
    SplitAfterPiece(base, start + "-" + end, ':');
    SplitNoSeparator(start + "-" + end, ':');
    assert start + "-" + end == start + ['-'] + end;
    SplitAfterPiece(start, end, '-');
    SplitNoSeparator(end, '-');
  }

  /** A piece with '-' fails to unpack exactly when it does not hold one
      ':', or its part after the ':' does not hold one '-'. */
  lemma PieceFails(piece: string)
    ensures PiecePositions(piece).Err? <==>
              '-' in piece && (multiset(piece)[':'] != 1 || multiset(Split(piece, ':')[|Split(piece, ':')| - 1])['-'] != 1)
    ensures PiecePositions(piece).Err? ==> PiecePositions(piece) == Err(ValueError)
  {
    SplitCount(piece, ':');
    var halves := Split(piece, ':');
    SplitCount(halves[|halves| - 1], '-');
  }

  /** A piece's positions are never more than two, and a piece without '-'
      is kept unchanged. */
  lemma {:induction false} CellPositionsOk(pieces: seq<string>)
    requires forall i :: 0 <= i < |pieces| ==> '-' !in pieces[i]
    ensures CellPositions(pieces) == Ok(pieces)
    decreases |pieces|
  {
    if pieces != [] {
      var n := |pieces| - 1;
      CellPositionsOk(pieces[..n]);
      assert PiecePositions(pieces[n]) == Ok([pieces[n]]);
      assert CellPositions(pieces) == Ok(pieces[..n] + [pieces[n]]);
      assert pieces == pieces[..n] + [pieces[n]];
    }
  }

  /** The loop over `raw_positions` (lines 221-228). */
  method RowPositions(cell: string) returns (r: Result<seq<string>>)
    ensures r == CellPositions(Split(cell, ';'))
  {
    var pieces := Split(cell, ';');
    var positions: seq<string> := [];
    var i := 0;
    while i < |pieces|
      invariant 0 <= i <= |pieces|
      invariant CellPositions(pieces[..i]) == Ok(positions)
    {
      assert pieces[..i + 1][..i] == pieces[..i];
      var piece := pieces[i];
      if '-' in piece {
        var halves := Split(piece, ':');
        if |halves| != 2 {
          assert CellPositions(pieces[..i + 1]).Err?;
          CellPositionsErr(pieces, i + 1);
          return Err(ValueError);
        }
        var ends := Split(halves[1], '-');
        if |ends| != 2 {
          assert CellPositions(pieces[..i + 1]).Err?;
          CellPositionsErr(pieces, i + 1);
          return Err(ValueError);
        }
        positions := positions + [halves[0] + ":" + ends[0], halves[0] + ":" + ends[1]];
      } else {
        positions := positions + [piece];
      }
      i := i + 1;
    }
    assert pieces[..i] == pieces;
    r := Ok(positions);
  }

  /** Once a prefix of the pieces fails, the whole value fails the same way. */
  lemma {:induction false} CellPositionsErr(pieces: seq<string>, k: nat)
    requires k <= |pieces| && CellPositions(pieces[..k]).Err?
    ensures CellPositions(pieces) == Err(ValueError)
    decreases |pieces| - k
  {
    if k < |pieces| {
      assert pieces[..k + 1][..k] == pieces[..k];
      CellPositionsErr(pieces, k + 1);
    } else {
      assert pieces[..k] == pieces;
      CellPositionsIsValueError(pieces);
    }
  }

  lemma {:induction false} CellPositionsIsValueError(pieces: seq<string>)
    ensures CellPositions(pieces).Err? ==> CellPositions(pieces) == Err(ValueError)
    decreases |pieces|
  {
    if pieces != [] {
      CellPositionsIsValueError(pieces[..|pieces| - 1]);
    }
  }

  // ---------------------------------------------------------------------
  // Adding the entries of one row

  /** The list stored for `p`, or the empty list of `setdefault`. */
  function Lookup(m: map<string, seq<Entry>>, p: string): seq<Entry> {
    if p in m then m[p] else []
  }

  /** `mutation_data` after `setdefault(p, []).append(e)` for every
      non-empty `p` of `ps` in turn. */
  function AddAll(m: map<string, seq<Entry>>, ps: seq<string>, e: Entry): map<string, seq<Entry>>
    decreases |ps|
  {
    if ps == [] then m
    else
      var m' := AddAll(m, ps[..|ps| - 1], e);
      var p := ps[|ps| - 1];
      if p == "" then m' else m'[p := Lookup(m', p) + [e]]
  }

  /** Each non-empty position receives one copy of the entry per occurrence
      in `ps`, after what it already held; the empty position is skipped. */
  lemma AddAllCounts(m: map<string, seq<Entry>>, ps: seq<string>, e: Entry)
    ensures forall p :: p != "" ==> Lookup(AddAll(m, ps, e), p) == Lookup(m, p) + seq(Count(ps, p), _ => e)
    ensures forall p :: p in AddAll(m, ps, e) <==> p in m || (p != "" && p in ps)
    ensures "" in m ==> AddAll(m, ps, e)[""] == m[""]
  {
    forall p | p != ""
      ensures Lookup(AddAll(m, ps, e), p) == Lookup(m, p) + seq(Count(ps, p), _ => e)
    {
      AddAllLookup(m, ps, e, p);
    }
    AddAllKeys(m, ps, e);
  }

  lemma {:induction false} AddAllLookup(m: map<string, seq<Entry>>, ps: seq<string>, e: Entry, p: string)
    requires p != ""
    ensures Lookup(AddAll(m, ps, e), p) == Lookup(m, p) + seq(Count(ps, p), _ => e)
    decreases |ps|
  {
    if ps == [] {
      assert seq(0, _ => e) == [];
    } else {
      var init := ps[..|ps| - 1];
      var last := ps[|ps| - 1];
      AddAllLookup(m, init, e, p);
      var prev := AddAll(m, init, e);
      if p == last {
        assert Lookup(AddAll(m, ps, e), p) == Lookup(prev, p) + [e];
        assert Count(ps, p) == Count(init, p) + 1;
        assert seq(Count(init, p) + 1, _ => e) == seq(Count(init, p), _ => e) + [e];
      } else {
        assert Lookup(AddAll(m, ps, e), p) == Lookup(prev, p);
        assert Count(ps, p) == Count(init, p);
      }
    }
  }

  lemma {:induction false} AddAllKeys(m: map<string, seq<Entry>>, ps: seq<string>, e: Entry)
    ensures forall p :: p in AddAll(m, ps, e) <==> p in m || (p != "" && p in ps)
    ensures "" in m ==> AddAll(m, ps, e)[""] == m[""]
    decreases |ps|
  {
    if ps != [] {
      var init := ps[..|ps| - 1];
      AddAllKeys(m, init, e);
      assert ps == init + [ps[|ps| - 1]];
    }
  }

  /** The loop over `positions` (lines 230-236). */
  method AddEntries(m: map<string, seq<Entry>>, ps: seq<string>, e: Entry) returns (m': map<string, seq<Entry>>)
    ensures m' == AddAll(m, ps, e)
  {
    m' := m;
    for i := 0 to |ps|
      invariant m' == AddAll(m, ps[..i], e)
    {
      assert ps[..i + 1][..i] == ps[..i];
      var p := ps[i];
      if p != "" {
        m' := m'[p := Lookup(m', p) + [e]];
      }
    }
    assert ps[..|ps|] == ps;
  }

  // ---------------------------------------------------------------------
  // One file, and the directory

  /** The rows loop of one file: the data so far and whether an exception
      ended the loop. Rows with a NaN cell are dropped by `dropna()`. */
  function ParseRows(m: map<string, seq<Entry>>, id: string, rows: seq<seq<Option<string>>>): (map<string, seq<Entry>>, bool)
    requires forall i :: 0 <= i < |rows| ==> |rows[i]| >= 3
    decreases |rows|
  {
    if rows == [] then (m, false)
    else
      var prev := ParseRows(m, id, rows[..|rows| - 1]);
      var row := rows[|rows| - 1];
      if prev.1 || !Complete(row) then prev
      else
        match CellPositions(Split(row[2].value, ';'))
        case Err(_) => (prev.0, true)
        case Ok(ps) => (AddAll(prev.0, ps, Entry(id, row[0].value, row[1].value)), false)
  }

  /** Lines 209-238 for one file: unreadable files and files with fewer than
      three columns add nothing. */
  function ParseFile(m: map<string, seq<Entry>>, f: CsvFile): map<string, seq<Entry>>
    requires f.frame.Some? ==> forall r :: 0 <= r < |f.frame.value.rows| ==> |f.frame.value.rows[r]| == f.frame.value.width
  {
    match f.frame
    case None => m
    case Some(fr) => if fr.width < 3 then m else ParseRows(m, FileId(f.path), fr.rows).0
  }

  /** `mutation_data` after the files in `glob` order. */
  function ParseAll(files: seq<CsvFile>): map<string, seq<Entry>>
    requires Rectangular(files)
    decreases |files|
  {
    if files == [] then map[]
    else
      var n := |files| - 1;
      assert Rectangular(files[..n]) by {
        forall i | 0 <= i < n ensures files[..n][i] == files[i] {}
      }
      ParseFile(ParseAll(files[..n]), files[n])
  }

  /** After an exception the rest of the file is abandoned. */
  lemma {:induction false} ParseRowsAbandons(m: map<string, seq<Entry>>, id: string, rows: seq<seq<Option<string>>>, k: nat)
    requires forall i :: 0 <= i < |rows| ==> |rows[i]| >= 3
    requires k <= |rows| && ParseRows(m, id, rows[..k]).1
    ensures ParseRows(m, id, rows) == ParseRows(m, id, rows[..k])
    decreases |rows| - k
  {
    if k < |rows| {
      assert rows[..k + 1][..k] == rows[..k];
      ParseRowsAbandons(m, id, rows, k + 1);
    } else {
      assert rows[..k] == rows;
    }
  }

  /** Lists are only ever extended: what a file adds never changes what
      earlier files (or earlier rows) put in. */
  lemma {:induction false} AddAllExtends(m: map<string, seq<Entry>>, ps: seq<string>, e: Entry)
    ensures forall p :: p in m ==> p in AddAll(m, ps, e) && m[p] <= AddAll(m, ps, e)[p]
  {
    AddAllCounts(m, ps, e);
    forall p | p in m
      ensures p in AddAll(m, ps, e) && m[p] <= AddAll(m, ps, e)[p]
    {
      if p != "" {
        assert Lookup(m, p) == m[p];
      }
    }
  }

  lemma {:induction false} ParseRowsExtends(m: map<string, seq<Entry>>, id: string, rows: seq<seq<Option<string>>>)
    requires forall i :: 0 <= i < |rows| ==> |rows[i]| >= 3
    ensures forall p :: p in m ==> p in ParseRows(m, id, rows).0 && m[p] <= ParseRows(m, id, rows).0[p]
    decreases |rows|
  {
    if rows != [] {
      var init := rows[..|rows| - 1];
      ParseRowsExtends(m, id, init);
      var prev := ParseRows(m, id, init);
      var row := rows[|rows| - 1];
      if !prev.1 && Complete(row) {
        var cp := CellPositions(Split(row[2].value, ';'));
        if cp.Ok? {
          AddAllExtends(prev.0, cp.value, Entry(id, row[0].value, row[1].value));
        }
      }
    }
  }

  /** Every earlier file's contribution survives later files, failed ones
      included. */
  lemma {:induction false} ParseAllExtends(files: seq<CsvFile>, k: nat)
    requires Rectangular(files) && k <= |files|
    requires Rectangular(files[..k])
    ensures forall p :: p in ParseAll(files[..k]) ==> p in ParseAll(files) && ParseAll(files[..k])[p] <= ParseAll(files)[p]
    decreases |files| - k
  {
    if k < |files| {
      assert files[..k + 1][..k] == files[..k];
      assert Rectangular(files[..k + 1]) by {
        forall i | 0 <= i < k + 1 ensures files[..k + 1][i] == files[i] {}
      }
      var before := ParseAll(files[..k]);
      var f := files[k];
      assert files[..k + 1][k] == f;
      match f.frame {
        case None =>
        case Some(fr) =>
          if fr.width >= 3 {
            ParseRowsExtends(before, FileId(f.path), fr.rows);
          }
      }
      ParseAllExtends(files, k + 1);
    } else {
      assert files[..k] == files;
    }
  }

  /** No position is empty, and every entry names the prefix of some file
      in the directory. */
  lemma {:induction false} ParseAllEntries(files: seq<CsvFile>)
    requires Rectangular(files)
    ensures "" !in ParseAll(files)
    ensures forall p, e :: p in ParseAll(files) && e in ParseAll(files)[p] ==>
              exists i :: 0 <= i < |files| && e.file == FileId(files[i].path)
    decreases |files|
  {
    if files != [] {
      var n := |files| - 1;
      assert Rectangular(files[..n]) by {
        forall i | 0 <= i < n ensures files[..n][i] == files[i] {}
      }
      ParseAllEntries(files[..n]);
      var before := ParseAll(files[..n]);
      var f := files[n];
      ParseFileEntries(before, f);
      assert ParseAll(files) == ParseFile(before, f);
      forall p: string, e: Entry | p in ParseAll(files) && e in ParseAll(files)[p]
        ensures exists i :: 0 <= i < |files| && e.file == FileId(files[i].path)
      {
        if p in before && e in before[p] {
          var i :| 0 <= i < n && e.file == FileId(files[..n][i].path);
          assert files[..n][i] == files[i];
        } else {
          assert e.file == FileId(files[n].path);
        }
      }
    }
  }

  /** One file adds entries naming that file only, and no empty position. */
  lemma ParseFileEntries(m: map<string, seq<Entry>>, f: CsvFile)
    requires f.frame.Some? ==> forall r :: 0 <= r < |f.frame.value.rows| ==> |f.frame.value.rows[r]| == f.frame.value.width
    ensures "" !in m ==> "" !in ParseFile(m, f)
    ensures forall p, e :: p in ParseFile(m, f) && e in ParseFile(m, f)[p] ==>
              (p in m && e in m[p]) || e.file == FileId(f.path)
  {
    match f.frame {
      case None =>
      case Some(fr) =>
        if fr.width >= 3 {
          ParseRowsEntries(m, FileId(f.path), fr.rows);
        }
    }
  }

  /** `r` holds the entries of `m`, with the same entries at the empty
      position, and otherwise only entries of file `id`. */
  ghost predicate OnlyAdds(m: map<string, seq<Entry>>, r: map<string, seq<Entry>>, id: string) {
    && ("" in m ==> "" in r && r[""] == m[""])
    && ("" !in m ==> "" !in r)
    && (forall p, e :: p in r && e in r[p] ==> (p in m && e in m[p]) || e.file == id)
  }

  lemma {:induction false} ParseRowsEntries(m: map<string, seq<Entry>>, id: string, rows: seq<seq<Option<string>>>)
    requires forall i :: 0 <= i < |rows| ==> |rows[i]| >= 3
    ensures OnlyAdds(m, ParseRows(m, id, rows).0, id)
    decreases |rows|
  {
    if rows != [] {
      var init := rows[..|rows| - 1];
      ParseRowsEntries(m, id, init);
      var prev := ParseRows(m, id, init);
      var row := rows[|rows| - 1];
      if !prev.1 && Complete(row) {
        var cp := CellPositions(Split(row[2].value, ';'));
        if cp.Ok? {
          AddAllFromFile(m, prev.0, id, cp.value, Entry(id, row[0].value, row[1].value));
        }
      }
    }
  }

  /** Adding an entry of file `id` keeps every entry either old or of `id`. */
  lemma AddAllFromFile(m: map<string, seq<Entry>>, prev: map<string, seq<Entry>>, id: string, ps: seq<string>, e: Entry)
    requires e.file == id && OnlyAdds(m, prev, id)
    ensures OnlyAdds(m, AddAll(prev, ps, e), id)
  {
    AddAllCounts(prev, ps, e);
    AddAllEntries(prev, ps, e);
    var r := AddAll(prev, ps, e);
    forall p, x | p in r && x in r[p]
      ensures (p in m && x in m[p]) || x.file == id
    {
      if x != e {
        assert p in prev && x in prev[p];
      }
    }
  }

  lemma AddAllEntries(m: map<string, seq<Entry>>, ps: seq<string>, e: Entry)
    ensures forall p, x :: p in AddAll(m, ps, e) && x in AddAll(m, ps, e)[p] ==> (p in m && x in m[p]) || x == e
  {
    AddAllCounts(m, ps, e);
    var r := AddAll(m, ps, e);
    forall p, x | p in r && x in r[p]
      ensures (p in m && x in m[p]) || x == e
    {
      if p != "" {
        assert r[p] == Lookup(m, p) + seq(Count(ps, p), _ => e);
      }
    }
  }

  /** The rows loop with its `try`/`except` (lines 218-238). */
  method ParseCsvRows(m: map<string, seq<Entry>>, id: string, rows: seq<seq<Option<string>>>)
    returns (m': map<string, seq<Entry>>)
    requires forall i :: 0 <= i < |rows| ==> |rows[i]| >= 3
    ensures m' == ParseRows(m, id, rows).0
  {
    m' := m;
    var i := 0;
    while i < |rows|
      invariant 0 <= i <= |rows|
      invariant ParseRows(m, id, rows[..i]) == (m', false)
    {
      assert rows[..i + 1][..i] == rows[..i];
      var row := rows[i];
      if Complete(row) {
        var ps := RowPositions(row[2].value);
        if ps.Err? {
          assert ParseRows(m, id, rows[..i + 1]).1;
          ParseRowsAbandons(m, id, rows, i + 1);
          return;
        }
        m' := AddEntries(m', ps.value, Entry(id, row[0].value, row[1].value));
      }
      i := i + 1;
    }
    assert rows[..i] == rows;
  }

  /** The loop over the files (lines 208-238). */
  method ParseCsvFiles(files: seq<CsvFile>) returns (data: map<string, seq<Entry>>)
    requires Rectangular(files)
    ensures data == ParseAll(files)
  {
    data := map[];
    var k := 0;
    while k < |files|
      invariant 0 <= k <= |files|
      invariant Rectangular(files[..k]) && data == ParseAll(files[..k])
    {
      assert files[..k + 1][..k] == files[..k];
      assert Rectangular(files[..k + 1]) by {
        forall i | 0 <= i < k + 1 ensures files[..k + 1][i] == files[i] {}
      }
      var f := files[k];
      assert files[..k + 1][k] == f;
      match f.frame {
        case None =>
        case Some(fr) =>
          if fr.width >= 3 {
            data := ParseCsvRows(data, FileId(f.path), fr.rows);
          }
      }
      k := k + 1;
    }
    assert files[..k] == files;
  }

  // ---------------------------------------------------------------------
  // process_driver_file

  /** A row of the driver table, by column name. */
  type DriverRow = map<string, string>

  /** The positions a "Mutation Summary" value names: its first
      space-delimited token, or for a range `start-end` the start and
      `base:end`, where `base` is the start before its last ':'. */
  function SummaryPositions(summary: string): Result<seq<string>> {
    var tok := Split(summary, ' ')[0];
    if '-' !in tok then Ok([tok])
    else
      var parts := Split(tok, '-');
      if |parts| != 2 then Err(ValueError)
      else
        var start := parts[0];
        var i := LastIndexOf(start, ':');
        if i < 0 then Err(ValueError)
        else Ok([start[..i] + ":" + start[i + 1..], start[..i] + ":" + parts[1]])
  }

  /** The keys and the gene one row writes (lines 246-256). */
  function RowGenes(row: DriverRow): Result<(seq<string>, string)> {
    if "Mutation Summary" !in row || "Driver Gene" !in row then Err(KeyError)
    else
      var ps :- SummaryPositions(row["Mutation Summary"]);
      Ok((ps, row["Driver Gene"]))
  }

  /** `d` after `d[k] = g` for every `k` of `ks` in turn. */
  function PutAll(d: Dict<string, string>, ks: seq<string>, g: string): (r: Dict<string, string>)
    decreases |ks|
  {
    if ks == [] then d else PutAll(d, ks[..|ks| - 1], g).Put(ks[|ks| - 1], g)
  }

  /** `position_to_gene` after the rows in turn. */
  function DriverMap(rows: seq<DriverRow>): Result<Dict<string, string>>
    decreases |rows|
  {
    if rows == [] then Ok(Empty())
    else
      var d :- DriverMap(rows[..|rows| - 1]);
      AddRow(d, rows[|rows| - 1])
  }

  /** `position_to_gene` after one more row. */
  function AddRow(d: Dict<string, string>, row: DriverRow): Result<Dict<string, string>> {
    var kg :- RowGenes(row);
    Ok(PutAll(d, kg.0, kg.1))
  }

  /** For a range `base:start-end` the start key is the start itself and the
      end key is `base:end`, with `base` everything before the start's last
      ':'. */
  lemma RangeSummary(base: string, start: string, end: string, rest: string)
    requires '-' !in base && '-' !in start && '-' !in end && ':' !in start
    requires ' ' !in base && ' ' !in start && ' ' !in end
    ensures SummaryPositions(base + ":" + start + "-" + end + " " + rest) == Ok([base + ":" + start, base + ":" + end])
  {
    var s := base + ":" + start;
    var tok := s + "-" + end;
    assert ' ' !in tok;
    assert base + ":" + start + "-" + end + " " + rest == tok + [' '] + rest;
    SplitAfterPiece(tok, rest, ' ');
    assert tok[|s|] == '-';
    assert '-' !in s;
    assert tok == s + ['-'] + end;
    SplitAfterPiece(s, end, '-');
    SplitNoSeparator(end, '-');
    assert Split(tok, '-') == [s, end];
    LastColon(base, start);
    assert s[..|base|] == base && s[|base| + 1..] == start;
  }

  /** The last ':' of `base:start` is the one after `base` when `start` has none. */
  lemma LastColon(base: string, start: string)
    requires ':' !in start
    ensures LastIndexOf(base + ":" + start, ':') == |base|
  {
    var s := base + ":" + start;
    assert s[|base|] == ':';
    assert s[|base| + 1..] == start;
  }

  /** A token without '-' maps itself. */
  lemma PlainSummary(tok: string, rest: string)
    requires '-' !in tok && ' ' !in tok
    ensures SummaryPositions(tok + " " + rest) == Ok([tok])
  {
    assert tok + " " + rest == tok + [' '] + rest;
    SplitAfterPiece(tok, rest, ' ');
  }

  lemma {:induction false} PutAllValid(d: Dict<string, string>, ks: seq<string>, g: string)
    requires d.Valid()
    ensures PutAll(d, ks, g).Valid()
    ensures forall k :: k in PutAll(d, ks, g).items <==> k in d.items || k in ks
    ensures forall k :: k in ks ==> PutAll(d, ks, g).items[k] == g
    ensures forall k :: k in d.items && k !in ks ==> PutAll(d, ks, g).items[k] == d.items[k]
    decreases |ks|
  {
    if ks != [] {
      var init := ks[..|ks| - 1];
      PutAllValid(d, init, g);
      PutValid(PutAll(d, init, g), ks[|ks| - 1], g);
      assert ks == init + [ks[|ks| - 1]];
    }
  }

  /** Each key maps to the gene of the last row naming it: later rows
      overwrite earlier ones. */
  lemma {:induction false} DriverLastRowWins(rows: seq<DriverRow>, d: Dict<string, string>, j: nat, k: string)
    requires DriverMap(rows) == Ok(d) && j < |rows|
    requires RowGenes(rows[j]).Ok? && k in RowGenes(rows[j]).value.0
    requires forall i :: j < i < |rows| && RowGenes(rows[i]).Ok? ==> k !in RowGenes(rows[i]).value.0
    ensures d.Valid() && k in d.items && d.items[k] == RowGenes(rows[j]).value.1
    decreases |rows|
  {
    var n := |rows| - 1;
    var prev := DriverMap(rows[..n]).value;
    var kg := RowGenes(rows[n]).value;
    DriverMapValid(rows[..n]);
    PutAllValid(prev, kg.0, kg.1);
    if j < n {
      assert rows[..n][j] == rows[j];
      forall i | j < i < n && RowGenes(rows[..n][i]).Ok?
        ensures k !in RowGenes(rows[..n][i]).value.0
      {
        assert rows[..n][i] == rows[i];
      }
      DriverLastRowWins(rows[..n], prev, j, k);
    }
  }

  /** The table is the table of all rows but the last with the last row's
      keys written in. */
  lemma DriverMapStep(rows: seq<DriverRow>)
    requires rows != [] && DriverMap(rows).Ok?
    ensures DriverMap(rows[..|rows| - 1]).Ok? && RowGenes(rows[|rows| - 1]).Ok?
    ensures DriverMap(rows).value ==
              PutAll(DriverMap(rows[..|rows| - 1]).value, RowGenes(rows[|rows| - 1]).value.0, RowGenes(rows[|rows| - 1]).value.1)
  {
  }

  /** The keys of `position_to_gene` are exactly the positions some row names. */
  lemma DriverKeys(rows: seq<DriverRow>, d: Dict<string, string>)
    requires DriverMap(rows) == Ok(d)
    ensures d.Valid()
    ensures forall i :: 0 <= i < |rows| ==> RowGenes(rows[i]).Ok?
    ensures forall k :: k in d.items <==> exists i :: 0 <= i < |rows| && k in RowGenes(rows[i]).value.0
  {
    DriverMapValid(rows);
    DriverRowsOk(rows);
    forall k
      ensures k in d.items <==> exists i :: 0 <= i < |rows| && k in RowGenes(rows[i]).value.0
    {
      if k in d.items {
        DriverKeyFrom(rows, k);
      }
      if exists i :: 0 <= i < |rows| && k in RowGenes(rows[i]).value.0 {
        var i :| 0 <= i < |rows| && k in RowGenes(rows[i]).value.0;
        DriverKeyTo(rows, i, k);
      }
    }
  }

  /** A table that is built read every row. */
  lemma {:induction false} DriverRowsOk(rows: seq<DriverRow>)
    requires DriverMap(rows).Ok?
    ensures forall i :: 0 <= i < |rows| ==> RowGenes(rows[i]).Ok?
    decreases |rows|
  {
    if rows != [] {
      var n := |rows| - 1;
      DriverMapStep(rows);
      DriverRowsOk(rows[..n]);
      assert forall i :: 0 <= i < n ==> rows[..n][i] == rows[i];
    }
  }

  /** Every key of the table comes from some row. */
  lemma {:induction false} DriverKeyFrom(rows: seq<DriverRow>, k: string)
    requires DriverMap(rows).Ok? && k in DriverMap(rows).value.items
    ensures exists i :: 0 <= i < |rows| && RowGenes(rows[i]).Ok? && k in RowGenes(rows[i]).value.0
    decreases |rows|
  {
    var n := |rows| - 1;
    DriverMapStep(rows);
    var prev := DriverMap(rows[..n]).value;
    var kg := RowGenes(rows[n]).value;
    DriverMapValid(rows[..n]);
    PutAllValid(prev, kg.0, kg.1);
    if k in kg.0 {
      assert RowGenes(rows[n]).Ok? && k in RowGenes(rows[n]).value.0;
    } else {
      DriverKeyFrom(rows[..n], k);
      var i :| 0 <= i < n && RowGenes(rows[..n][i]).Ok? && k in RowGenes(rows[..n][i]).value.0;
      assert rows[..n][i] == rows[i];
    }
  }

  /** Every position a row names is a key of the table. */
  lemma {:induction false} DriverKeyTo(rows: seq<DriverRow>, i: nat, k: string)
    requires DriverMap(rows).Ok? && i < |rows| && RowGenes(rows[i]).Ok? && k in RowGenes(rows[i]).value.0
    ensures k in DriverMap(rows).value.items
    decreases |rows|
  {
    var n := |rows| - 1;
    DriverMapStep(rows);
    var prev := DriverMap(rows[..n]).value;
    var kg := RowGenes(rows[n]).value;
    DriverMapValid(rows[..n]);
    PutAllValid(prev, kg.0, kg.1);
    if i < n {
      assert rows[..n][i] == rows[i];
      DriverKeyTo(rows[..n], i, k);
    }
  }

  lemma {:induction false} DriverMapValid(rows: seq<DriverRow>)
    ensures DriverMap(rows).Ok? ==> DriverMap(rows).value.Valid()
    decreases |rows|
  {
    if rows != [] {
      DriverMapValid(rows[..|rows| - 1]);
      var prev := DriverMap(rows[..|rows| - 1]);
      var kg := RowGenes(rows[|rows| - 1]);
      if prev.Ok? && kg.Ok? {
        PutAllValid(prev.value, kg.value.0, kg.value.1);
      }
    }
  }

  /** The rows loop of `process_driver_file` (lines 245-256). */
  method ProcessDriverFile(rows: seq<DriverRow>) returns (r: Result<Dict<string, string>>)
    ensures r == DriverMap(rows)
  {
    var d: Dict<string, string> := Empty();
    var i := 0;
    while i < |rows|
      invariant 0 <= i <= |rows|
      invariant DriverMap(rows[..i]) == Ok(d)
    {
      assert rows[..i + 1][..i] == rows[..i];
      var next := PutRow(d, rows[i]);
      if next.Err? {
        DriverMapErr(rows, i + 1);
        return next;
      }
      d := next.value;
      assert DriverMap(rows[..i + 1]) == Ok(d);
      i := i + 1;
    }
    assert rows[..i] == rows;
    r := Ok(d);
  }

  /** The body of the rows loop of `process_driver_file` (lines 246-256)
      for one row. */
  method PutRow(d: Dict<string, string>, row: DriverRow) returns (r: Result<Dict<string, string>>)
    ensures r == AddRow(d, row)
  {
    if "Mutation Summary" !in row || "Driver Gene" !in row {
      return Err(KeyError);
    }
    var tok := Split(row["Mutation Summary"], ' ')[0];
    var gene := row["Driver Gene"];
    if '-' in tok {
      var parts := Split(tok, '-');
      if |parts| != 2 {
        return Err(ValueError);
      }
      var start := parts[0];
      var c := LastIndexOf(start, ':');
      if c < 0 {
        return Err(ValueError);
      }
      var ks := [start[..c] + ":" + start[c + 1..], start[..c] + ":" + parts[1]];
      assert RowGenes(row) == Ok((ks, gene));
      assert PutAll(d, ks, gene) == PutAll(d, ks[..1], gene).Put(ks[1], gene);
      assert ks[..1][..0] == [];
      assert PutAll(d, ks[..1], gene) == PutAll(d, ks[..1][..0], gene).Put(ks[0], gene);
      var d' := d.Put(ks[0], gene);
      d' := d'.Put(ks[1], gene);
      assert d' == PutAll(d, ks, gene);
      r := Ok(d');
    } else {
      assert RowGenes(row) == Ok(([tok], gene));
      assert [tok][..0] == [];
      assert PutAll(d, [tok], gene) == PutAll(d, [tok][..0], gene).Put(tok, gene);
      r := Ok(d.Put(tok, gene));
    }
  }

  /** Once a prefix of the rows fails, the whole table fails the same way. */
  lemma {:induction false} DriverMapErr(rows: seq<DriverRow>, k: nat)
    requires k <= |rows| && DriverMap(rows[..k]).Err?
    ensures DriverMap(rows) == DriverMap(rows[..k])
    decreases |rows| - k
  {
    if k < |rows| {
      assert rows[..k + 1][..k] == rows[..k];
      DriverMapErr(rows, k + 1);
    } else {
      assert rows[..k] == rows;
    }
  }

  // ---------------------------------------------------------------------
  // match_positions

  /** The keys of `keys` that `data` holds, in order. */
  function Present(keys: seq<string>, data: map<string, seq<Entry>>): (r: seq<string>)
    decreases |keys|
  {
    if keys == [] then []
    else
      var last := keys[|keys| - 1];
      Present(keys[..|keys| - 1], data) + (if last in data then [last] else [])
  }

  lemma {:induction false} PresentKeys(keys: seq<string>, data: map<string, seq<Entry>>)
    ensures forall x :: x in Present(keys, data) <==> x in keys && x in data
    ensures Distinct(keys) ==> Distinct(Present(keys, data))
    ensures |Present(keys, data)| <= |keys|
    decreases |keys|
  {
    if keys != [] {
      var init := keys[..|keys| - 1];
      PresentKeys(init, data);
      assert keys == init + [keys[|keys| - 1]];
      if Distinct(keys) {
        assert Distinct(init);
        var last := keys[|keys| - 1];
        if last in data {
          assert last !in init;
          DistinctAppend(Present(init, data), last);
        }
      }
    }
  }

  /** When every driver position has data, nothing is dropped and the order
      of `position_to_gene` is kept. */
  lemma {:induction false} PresentAll(keys: seq<string>, data: map<string, seq<Entry>>)
    requires forall k :: k in keys ==> k in data
    ensures Present(keys, data) == keys
    decreases |keys|
  {
    if keys != [] {
      var init := keys[..|keys| - 1];
      var last := keys[|keys| - 1];
      assert keys == init + [last];
      assert last in keys;
      assert forall k :: k in init ==> k in keys;
      PresentAll(init, data);
      assert Present(keys, data) == Present(init, data) + [last];
    }
  }

  /** `r` holds the data of exactly the positions of `keys` present in
      `data`, in the order of `keys`. */
  ghost predicate MatchedData(r: Dict<string, seq<Entry>>, keys: seq<string>, data: map<string, seq<Entry>>) {
    && r.Valid() && r.keys == Present(keys, data)
    && (forall k :: k in r.items <==> k in data && k in keys)
    && (forall k :: k in r.items ==> r.items[k] == data[k])
  }

  /** One more driver position keeps the matched data. */
  lemma MatchStep(r: Dict<string, seq<Entry>>, keys: seq<string>, x: string, data: map<string, seq<Entry>>)
    requires MatchedData(r, keys, data) && x !in keys
    ensures MatchedData(if x in data then r.Put(x, data[x]) else r, keys + [x], data)
  {
    var keys' := keys + [x];
    assert keys'[..|keys'| - 1] == keys;
    if x in data {
      PresentKeys(keys, data);
      PutValid(r, x, data[x]);
    }
  }

  /** The loop of `match_positions` (lines 263-273): the sub-dictionary of
      `mutation_data` restricted to the positions of `position_to_gene`, in
      that dictionary's order. */
  method MatchPositions(data: map<string, seq<Entry>>, ptg: Dict<string, string>)
    returns (r: Dict<string, seq<Entry>>)
    requires ptg.Valid()
    ensures r.Valid() && r.keys == Present(ptg.keys, data)
    ensures forall k :: k in r.items <==> k in data && k in ptg.items
    ensures forall k :: k in r.items ==> r.items[k] == data[k]
  {
    r := Empty();
    for i := 0 to |ptg.keys|
      invariant MatchedData(r, ptg.keys[..i], data)
    {
      var p := ptg.keys[i];
      assert ptg.keys[..i + 1] == ptg.keys[..i] + [p];
      assert p !in ptg.keys[..i];
      MatchStep(r, ptg.keys[..i], p, data);
      if p in data {
        r := r.Put(p, data[p]);
      }
    }
    assert ptg.keys[..|ptg.keys|] == ptg.keys;
  }
}
