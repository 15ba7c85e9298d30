/** plot_scripts/meltos_plot.py, lines 55-111, 152-196 and 311-318: the
    driver-mutation list, its join with the SV matches, the driver-match
    table, and the relationship and label parsing of the Meltos tree plot.
    A file is the sequence of lines that iterating over it yields. */
module MeltosDrivers {
  import opened Wrappers
  import opened Text
  import opened Dicts

  /** One entry of the driver-mutation list: (position, driver gene). */
  type Driver = (string, string)

  // ---------------------------------------------------------------------
  // read_driver_mutation_file (lines 55-83)

  /** `base, positions = token.split(":")` then
      `start_pos, end_pos = positions.split("-")`; None where either
      unpacking raises ValueError. */
  function RangeParts(token: string): Option<(string, string, string)> {
    var halves := Split(token, ':');
    if |halves| != 2 then None
    else
      var ends := Split(halves[1], '-');
      if |ends| != 2 then None else Some((halves[0], ends[0], ends[1]))
  }

  /** A range token is `base:start-end`, and the parts are recovered from it. */
  lemma RangePartsSpec(token: string)
    ensures RangeParts(token).Some? ==>
              var (b, s, e) := RangeParts(token).value;
              token == b + ":" + s + "-" + e &&
              ':' !in b && ':' !in s && ':' !in e && '-' !in s && '-' !in e
  {
    if RangeParts(token).Some? {
      var halves := Split(token, ':');
      var ends := Split(halves[1], '-');
      JoinSplit(token, ':');
      JoinSplit(halves[1], '-');
      SplitPiecesLackSeparator(token, ':');
      SplitPiecesLackSeparator(halves[1], '-');
      assert Join(halves, ":") == halves[0] + ":" + halves[1];
      assert Join(ends, "-") == ends[0] + "-" + ends[1];
      assert ':' !in ends[0] + "-" + ends[1];
    }
  }

  /** Conversely every `base:start-end` with no stray separators parses back
      to its parts. */
  lemma RangePartsOf(b: string, s: string, e: string)
    requires ':' !in b && ':' !in s && ':' !in e && '-' !in s && '-' !in e
    ensures RangeParts(b + ":" + s + "-" + e) == Some((b, s, e))
  {
    var tail := s + "-" + e;
    assert b + ":" + s + "-" + e == b + [':'] + tail;
    SplitAfterPiece(b, tail, ':');
    SplitNoSeparator(tail, ':');
    assert tail == s + ['-'] + e;
    SplitAfterPiece(s, e, '-');
    SplitNoSeparator(e, '-');
  }

  /** The entries of one mutation-summary token for `gene`: a range
      `base:s-e` gives `base:s`, and also `base:e` when `e` differs from `s`;
      any other token is kept whole. */
  function TokenEntries(token: string, gene: string): (r: Result<seq<Driver>>)
    ensures r.Err? <==> '-' in token && RangeParts(token).None?
    ensures r.Err? ==> r.error == ValueError
    ensures r.Ok? ==> 1 <= |r.value| <= 2 && forall i :: 0 <= i < |r.value| ==> r.value[i].1 == gene
    ensures r.Ok? && '-' !in token ==> r.value == [(token, gene)]
    ensures r.Ok? && '-' in token ==>
              var (b, s, e) := RangeParts(token).value;
              r.value[0].0 == b + ":" + s && r.value[|r.value| - 1].0 == b + ":" + e &&
              (|r.value| == 1 <==> s == e)
  {
    if '-' in token then
      match RangeParts(token)
      case None => Err(ValueError)
      case Some((b, s, e)) =>
        if s == e then Ok([(b + ":" + s, gene)]) else Ok([(b + ":" + s, gene), (b + ":" + e, gene)])
    else Ok([(token, gene)])
  }

  /** The entries contributed by one line after the header: none for a line
      with fewer than five fields, else those of the first space-separated
      token of the fifth field, for the gene in the first field. */
  function LineEntries(line: string): Result<seq<Driver>> {
    var parts := Fields(line);
    if |parts| < 5 then Ok([]) else TokenEntries(Split(parts[4], ' ')[0], parts[0])
  }

  /** The entries of the lines after the header, in order; the first
      malformed range aborts the whole read. */
  function DriverList(lines: seq<string>): Result<seq<Driver>>
    decreases |lines|
  {
    if lines == [] then Ok([])
    else
      var done :- DriverList(lines[..|lines| - 1]);
      var more :- LineEntries(lines[|lines| - 1]);
      Ok(done + more)
  }

  /** `read_driver_mutation_file`: `next(file)` raises StopIteration on an
      empty file. */
  function DriverMutations(file: seq<string>): Result<seq<Driver>> {
    if file == [] then Err(StopIteration) else DriverList(file[1..])
  }

  /** One more line read: its entries are appended, or its error raised. */
  lemma DriverListStep(lines: seq<string>, i: nat, drivers: seq<Driver>)
    requires i < |lines| && DriverList(lines[..i]) == Ok(drivers)
    ensures LineEntries(lines[i]).Ok? ==> DriverList(lines[..i + 1]) == Ok(drivers + LineEntries(lines[i]).value)
    ensures LineEntries(lines[i]).Err? ==> DriverList(lines[..i + 1]) == Err(LineEntries(lines[i]).error)
  {
    assert lines[..i + 1][..i] == lines[..i];
  }

  lemma {:induction false} DriverListSticky(lines: seq<string>, k: nat)
    requires k <= |lines| && DriverList(lines[..k]).Err?
    ensures DriverList(lines) == DriverList(lines[..k])
    decreases |lines|
  {
    if k == |lines| {
      assert lines[..k] == lines;
    } else {
      var init := lines[..|lines| - 1];
      assert init[..k] == lines[..k];
      DriverListSticky(init, k);
    }
  }

  /** The body of the line loop (lines 59-83). */
  method ReadDriverLine(line: string) returns (r: Result<seq<Driver>>)
    ensures r == LineEntries(line)
  {
    var parts := Fields(line);
    if |parts| < 5 {
      return Ok([]);
    }
    var token := Split(parts[4], ' ')[0];
    var gene := parts[0];
    if '-' in token {
      var halves := Split(token, ':');
      if |halves| != 2 {
        return Err(ValueError);
      }
      var ends := Split(halves[1], '-');
      if |ends| != 2 {
        return Err(ValueError);
      }
      var base, s, e := halves[0], ends[0], ends[1];
      if s == e {
        return Ok([(base + ":" + s, gene)]);
      }
      return Ok([(base + ":" + s, gene), (base + ":" + e, gene)]);
    }
    return Ok([(token, gene)]);
  }

  /** `read_driver_mutation_file` (lines 55-83). */
  method ReadDriverMutationFile(file: seq<string>) returns (r: Result<seq<Driver>>)
    ensures r == DriverMutations(file)
  {
    if file == [] {
      return Err(StopIteration);
    }
    var lines := file[1..];
    var drivers: seq<Driver> := [];
    for i := 0 to |lines|
      invariant DriverList(lines[..i]) == Ok(drivers)
    {
      var more := ReadDriverLine(lines[i]);
      DriverListStep(lines, i, drivers);
      if more.Err? {
        DriverListSticky(lines, i + 1);
        return Err(more.error);
      }
      drivers := drivers + more.value;
    }
    assert lines[..|lines|] == lines;
    r := Ok(drivers);
  }

  // ---------------------------------------------------------------------
  // match_driver_mutations_to_nodes (lines 86-111)

  /** `re.split("[:-]", s)`: the pieces between the ':' and '-' characters. */
  function CoordPieces(s: string): seq<string> {
    Split(CoordMask(s), ':')
  }

  /** `re.split("[:-]", s)[:2]` unpacked into (chromosome, position); None
      where the unpacking raises ValueError. */
  function Coord(s: string): Option<(string, string)> {
    var ps := CoordPieces(s);
    if |ps| < 2 then None else Some((ps[0], ps[1]))
  }

  /** A `chr:start-end` SV position and a driver entry `chr:start` read as the
      same coordinate; a position or entry with neither ':' nor '-' has none. */
  lemma CoordSpec(c: string, s: string, e: string)
    requires ':' !in c && '-' !in c && ':' !in s && '-' !in s
    ensures Coord(c + ":" + s + "-" + e) == Some((c, s))
    ensures Coord(c + ":" + s) == Some((c, s))
    ensures Coord(c) == None
  {
    var x := c + ":" + s + "-" + e;
    var m := CoordMask(x);
    assert m == c + [':'] + (s + [':'] + CoordMask(e));
    SplitAfterPiece(c, s + [':'] + CoordMask(e), ':');
    SplitAfterPiece(s, CoordMask(e), ':');
    var y := c + ":" + s;
    assert CoordMask(y) == c + [':'] + s;
    SplitAfterPiece(c, s, ':');
    SplitNoSeparator(s, ':');
    assert CoordMask(c) == c;
    SplitNoSeparator(c, ':');
  }

  /** `s` with every '-' turned into ':'. */
  function CoordMask(s: string): (r: string)
    ensures |r| == |s| && forall i :: 0 <= i < |s| ==> r[i] == if s[i] == '-' then ':' else s[i]
  {
    seq(|s|, i requires 0 <= i < |s| => if s[i] == '-' then ':' else s[i])
  }

  /** Every driver in `drivers` has a coordinate, and none of them is (c, p). */
  predicate Misses(drivers: seq<Driver>, c: string, p: string) {
    forall j :: 0 <= j < |drivers| ==> Coord(drivers[j].0).Some? && Coord(drivers[j].0) != Some((c, p))
  }

  /** The gene of the first driver whose coordinate is (c, p); a driver
      without a coordinate met before it raises ValueError. */
  function FirstHit(drivers: seq<Driver>, c: string, p: string): Result<Option<string>>
    decreases |drivers|
  {
    if drivers == [] then Ok(None)
    else
      match Coord(drivers[0].0)
      case None => Err(ValueError)
      case Some(cp) => if cp == (c, p) then Ok(Some(drivers[0].1)) else FirstHit(drivers[1..], c, p)
  }

  /** `FirstHit` finds the first driver, in list order, whose coordinate is
      (c, p); it reports no match only when every driver has another
      coordinate, and it fails only at a driver without a coordinate that
      comes before any match. */
  lemma FirstHitSpec(drivers: seq<Driver>, c: string, p: string)
    ensures FirstHit(drivers, c, p) == Ok(None) <==> Misses(drivers, c, p)
    ensures FirstHit(drivers, c, p).Ok? && FirstHit(drivers, c, p).value.Some? ==>
              exists i :: 0 <= i < |drivers| && Misses(drivers[..i], c, p) &&
                Coord(drivers[i].0) == Some((c, p)) && FirstHit(drivers, c, p).value.value == drivers[i].1
    ensures FirstHit(drivers, c, p).Err? ==>
              FirstHit(drivers, c, p).error == ValueError &&
              exists i :: 0 <= i < |drivers| && Misses(drivers[..i], c, p) && Coord(drivers[i].0).None?
  {
    FirstHitNone(drivers, c, p);
    var r := FirstHit(drivers, c, p);
    if r.Ok? && r.value.Some? {
      var i := FirstHitFound(drivers, c, p);
    } else if r.Err? {
      var i := FirstHitFails(drivers, c, p);
    }
  }

  lemma {:induction false} FirstHitNone(drivers: seq<Driver>, c: string, p: string)
    ensures FirstHit(drivers, c, p) == Ok(None) <==> Misses(drivers, c, p)
    decreases |drivers|
  {
    if drivers != [] {
      FirstHitNone(drivers[1..], c, p);
      MissesCons(drivers, c, p);
    }
  }

  /** The index of the driver `FirstHit` returns the gene of. */
  lemma {:induction false} FirstHitFound(drivers: seq<Driver>, c: string, p: string) returns (i: nat)
    requires FirstHit(drivers, c, p).Ok? && FirstHit(drivers, c, p).value.Some?
    ensures i < |drivers| && Misses(drivers[..i], c, p)
    ensures Coord(drivers[i].0) == Some((c, p)) && FirstHit(drivers, c, p).value.value == drivers[i].1
    decreases |drivers|
  {
    if Coord(drivers[0].0) == Some((c, p)) {
      i := 0;
      assert Misses(drivers[..0], c, p);
    } else {
      var rest := drivers[1..];
      var j := FirstHitFound(rest, c, p);
      i := j + 1;
      MissesCons(drivers[..i], c, p);
      assert drivers[..i][1..] == rest[..j];
      assert drivers[i] == rest[j];
    }
  }

  /** The index of the driver without a coordinate that `FirstHit` fails at. */
  lemma {:induction false} FirstHitFails(drivers: seq<Driver>, c: string, p: string) returns (i: nat)
    requires FirstHit(drivers, c, p).Err?
    ensures FirstHit(drivers, c, p).error == ValueError
    ensures i < |drivers| && Misses(drivers[..i], c, p) && Coord(drivers[i].0).None?
    decreases |drivers|
  {
    if Coord(drivers[0].0).None? {
      i := 0;
      assert Misses(drivers[..0], c, p);
    } else {
      var rest := drivers[1..];
      var j := FirstHitFails(rest, c, p);
      i := j + 1;
      MissesCons(drivers[..i], c, p);
      assert drivers[..i][1..] == rest[..j];
      assert drivers[i] == rest[j];
    }
  }

  lemma MissesCons(drivers: seq<Driver>, c: string, p: string)
    requires drivers != []
    ensures Misses(drivers, c, p) <==>
              Coord(drivers[0].0).Some? && Coord(drivers[0].0) != Some((c, p)) && Misses(drivers[1..], c, p)
  {
    if Coord(drivers[0].0).Some? && Coord(drivers[0].0) != Some((c, p)) && Misses(drivers[1..], c, p) {
      forall j | 0 <= j < |drivers|
        ensures Coord(drivers[j].0).Some? && Coord(drivers[j].0) != Some((c, p))
      {
        if j > 0 {
          assert drivers[j] == drivers[1..][j - 1];
        }
      }
    }
  }

  /** The row written for a match. */
  function HitRow(node: string, clone: string, position: string, gene: string): string {
    node + "\t" + clone + "\t" + position + "\t" + gene + "\n"
  }

  /** One output step followed by another: a step that raised ends the output. */
  function Then(a: Written, b: Written): (r: Written)
    ensures a.raised.Some? ==> r == a
    ensures a.raised.None? ==> r.lines == a.lines + b.lines && r.raised == b.raised
  {
    if a.raised.Some? then a else Written(a.lines + b.lines, b.raised)
  }

  lemma ThenAssociative(a: Written, b: Written, c: Written)
    ensures Then(Then(a, b), c) == Then(a, Then(b, c))
  {
  }

  /** What the inner loop (lines 101-111) writes for one position: at most
      one row, for the first driver at the position's coordinate. */
  function PositionOutput(drivers: seq<Driver>, node: string, clone: string, position: string): (r: Written)
    ensures |r.lines| <= 1
    ensures r.raised.Some? ==> r.lines == []
  {
    match Coord(position)
    case None => Written([], Some(ValueError))
    case Some((c, p)) =>
      match FirstHit(drivers, c, p)
      case Err(e) => Written([], Some(e))
      case Ok(None) => Written([], None)
      case Ok(Some(g)) => Written([HitRow(node, clone, position, g)], None)
  }

  /** What one line of the matches file produces: nothing for a line with
      fewer than four fields, ValueError for one with more, and otherwise
      the rows of its first position followed by those of its second. */
  function LineOutput(drivers: seq<Driver>, line: string): Written {
    var parts := Fields(line);
    if |parts| < 4 then Written([], None)
    else if |parts| > 4 then Written([], Some(ValueError))
    else Then(PositionOutput(drivers, parts[0], parts[1], parts[2]),
              PositionOutput(drivers, parts[0], parts[1], parts[3]))
  }

  /** Each line of the matches file yields at most two rows, at most one per
      position, and a row names the line's node, clone and position. */
  lemma LineOutputSpec(drivers: seq<Driver>, line: string)
    ensures |LineOutput(drivers, line).lines| <= 2
    ensures |Fields(line)| < 4 ==> LineOutput(drivers, line) == Written([], None)
    ensures |Fields(line)| > 4 ==> LineOutput(drivers, line) == Written([], Some(ValueError))
    ensures forall row :: row in LineOutput(drivers, line).lines ==>
              var parts := Fields(line);
              |parts| == 4 && exists k, g :: 2 <= k < 4 && row == HitRow(parts[0], parts[1], parts[k], g)
  {
    var parts := Fields(line);
    if |parts| == 4 {
      var a := PositionOutput(drivers, parts[0], parts[1], parts[2]);
      var b := PositionOutput(drivers, parts[0], parts[1], parts[3]);
      forall row | row in LineOutput(drivers, line).lines
        ensures exists k, g :: 2 <= k < 4 && row == HitRow(parts[0], parts[1], parts[k], g)
      {
        if row in a.lines {
          var g := FirstHit(drivers, Coord(parts[2]).value.0, Coord(parts[2]).value.1).value.value;
          assert row == HitRow(parts[0], parts[1], parts[2], g);
        } else {
          var g := FirstHit(drivers, Coord(parts[3]).value.0, Coord(parts[3]).value.1).value.value;
          assert row == HitRow(parts[0], parts[1], parts[3], g);
        }
      }
    }
  }

  /** The output of the lines after the header. */
  function MatchLines(drivers: seq<Driver>, lines: seq<string>): Written
    decreases |lines|
  {
    if lines == [] then Written([], None)
    else Then(MatchLines(drivers, lines[..|lines| - 1]), LineOutput(drivers, lines[|lines| - 1]))
  }

  const DriverMatchHeader: string := "Node_ID\tClone_ID\tPosition\tDriver_Gene\n"

  /** What `match_driver_mutations_to_nodes` leaves in the output file: an
      empty file when the matches file is empty, otherwise the header and the
      rows of every line up to the first exception. */
  function DriverMatchOutput(drivers: seq<Driver>, file: seq<string>): Written {
    if file == [] then Written([], Some(StopIteration))
    else Then(Written([DriverMatchHeader], None), MatchLines(drivers, file[1..]))
  }

  /** The lines are processed one after another: the output of two blocks of
      lines is the output of the first followed by that of the second. */
  lemma {:induction false} MatchLinesAppend(drivers: seq<Driver>, a: seq<string>, b: seq<string>)
    ensures MatchLines(drivers, a + b) == Then(MatchLines(drivers, a), MatchLines(drivers, b))
    decreases |b|
  {
    if b == [] {
      assert a + b == a;
    } else {
      var n := |b| - 1;
      assert (a + b)[..|a + b| - 1] == a + b[..n];
      MatchLinesAppend(drivers, a, b[..n]);
      ThenAssociative(MatchLines(drivers, a), MatchLines(drivers, b[..n]), LineOutput(drivers, b[n]));
    }
  }

  /** One more line read by the line loop adds what it writes. */
  lemma MatchLinesStep(drivers: seq<Driver>, lines: seq<string>, i: nat, out: seq<string>)
    requires i < |lines| && MatchLines(drivers, lines[..i]) == Written(out, None)
    ensures MatchLines(drivers, lines[..i + 1]) ==
              Written(out + LineOutput(drivers, lines[i]).lines, LineOutput(drivers, lines[i]).raised)
  {
    assert lines[..i + 1][..i] == lines[..i];
  }

  /** Once a line has raised, the lines after it change nothing. */
  lemma MatchLinesStop(drivers: seq<Driver>, lines: seq<string>, k: nat)
    requires k <= |lines| && MatchLines(drivers, lines[..k]).raised.Some?
    ensures MatchLines(drivers, lines) == MatchLines(drivers, lines[..k])
  {
    MatchLinesAppend(drivers, lines[..k], lines[k..]);
    assert lines[..k] + lines[k..] == lines;
  }

  /** The inner loop with `break` (lines 104-111). */
  method FindDriver(drivers: seq<Driver>, c: string, p: string) returns (r: Result<Option<string>>)
    ensures r == FirstHit(drivers, c, p)
  {
    var i := 0;
    while i < |drivers|
      invariant 0 <= i <= |drivers|
      invariant FirstHit(drivers[i..], c, p) == FirstHit(drivers, c, p)
    {
      var (summary, gene) := drivers[i];
      var pieces := CoordPieces(summary);
      if |pieces| < 2 {
        return Err(ValueError);
      }
      if pieces[0] == c && pieces[1] == p {
        return Ok(Some(gene));
      }
      assert drivers[i..][1..] == drivers[i + 1..];
      i := i + 1;
    }
    return Ok(None);
  }

  /** One pass of the position loop (lines 100-111). */
  method WritePosition(drivers: seq<Driver>, node: string, clone: string, position: string) returns (w: Written)
    ensures w == PositionOutput(drivers, node, clone, position)
  {
    var pieces := CoordPieces(position);
    if |pieces| < 2 {
      return Written([], Some(ValueError));
    }
    var hit := FindDriver(drivers, pieces[0], pieces[1]);
    match hit
    case Err(e) => w := Written([], Some(e));
    case Ok(None) => w := Written([], None);
    case Ok(Some(g)) => w := Written([node + "\t" + clone + "\t" + position + "\t" + g + "\n"], None);
  }

  /** One pass of the line loop (lines 94-111). */
  method WriteLine(drivers: seq<Driver>, line: string) returns (w: Written)
    ensures w == LineOutput(drivers, line)
  {
    var parts := Fields(line);
    if |parts| < 4 {
      return Written([], None);
    }
    if |parts| > 4 {
      return Written([], Some(ValueError));
    }
    var node, clone, p1, p2 := parts[0], parts[1], parts[2], parts[3];
    w := WritePosition(drivers, node, clone, p1);
    if w.raised.None? {
      var more := WritePosition(drivers, node, clone, p2);
      w := Written(w.lines + more.lines, more.raised);
    }
  }

  /** `match_driver_mutations_to_nodes` (lines 86-111). */
  method MatchDriverMutationsToNodes(drivers: seq<Driver>, file: seq<string>) returns (w: Written)
    ensures w == DriverMatchOutput(drivers, file)
  {
    if file == [] {
      return Written([], Some(StopIteration));
    }
    var rows := WriteLines(drivers, file[1..]);
    w := Written([DriverMatchHeader] + rows.lines, rows.raised);
  }

  /** The line loop (lines 94-111), up to the first exception. */
  method WriteLines(drivers: seq<Driver>, lines: seq<string>) returns (w: Written)
    ensures w == MatchLines(drivers, lines)
  {
    var out := [];
    for i := 0 to |lines|
      invariant MatchLines(drivers, lines[..i]) == Written(out, None)
    {
      var step := WriteLine(drivers, lines[i]);
      MatchLinesStep(drivers, lines, i, out);
      out := out + step.lines;
      if step.raised.Some? {
        MatchLinesStop(drivers, lines, i + 1);
        return Written(out, step.raised);
      }
    }
    assert lines[..|lines|] == lines;
    w := Written(out, None);
  }

  // ---------------------------------------------------------------------
  // read_driver_matches (lines 311-318)

  /** The (node, gene) pair of every row. */
  function NodeGenePairs(rows: seq<seq<string>>, n: nat, g: nat): (r: seq<(string, string)>)
    requires forall row :: row in rows ==> n < |row| && g < |row|
    ensures |r| == |rows| && forall i :: 0 <= i < |rows| ==> r[i] == (rows[i][n], rows[i][g])
  {
    seq(|rows|, i requires 0 <= i < |rows| => (rows[i][n], rows[i][g]))
  }

  /** `read_driver_matches` over the table pandas reads: each row's
      "Node_ID" cell mapped to its "Driver_Gene" cell, the last row for a node
      winning; a missing column raises KeyError at the first row. */
  function DriverGeneByNode(header: seq<string>, rows: seq<seq<string>>): Result<map<string, string>>
    requires forall r :: r in rows ==> |r| == |header|
  {
    if rows == [] then Ok(map[])
    else
      match (IndexOf(header, "Node_ID"), IndexOf(header, "Driver_Gene"))
      case (Some(n), Some(g)) => Ok(ToMap(NodeGenePairs(rows, n, g)))
      case _ => Err(KeyError)
  }

  /** Every node with a row is a key, and its gene is that of its last row. */
  lemma DriverGeneByNodeSpec(header: seq<string>, rows: seq<seq<string>>, node: string)
    requires forall r :: r in rows ==> |r| == |header|
    requires "Node_ID" in header && "Driver_Gene" in header
    ensures DriverGeneByNode(header, rows).Ok?
    ensures var n, g := IndexOf(header, "Node_ID").value, IndexOf(header, "Driver_Gene").value;
            var m := DriverGeneByNode(header, rows).value;
            (node in m <==> exists i :: 0 <= i < |rows| && rows[i][n] == node) &&
            (node in m ==> exists i :: 0 <= i < |rows| && rows[i][n] == node && m[node] == rows[i][g] &&
                             forall j :: i < j < |rows| ==> rows[j][n] != node)
  {
    var n, g := IndexOf(header, "Node_ID").value, IndexOf(header, "Driver_Gene").value;
    ToMapLast(NodeGenePairs(rows, n, g), node);
  }

  /** The row loop of `read_driver_matches` (lines 315-318). */
  method ReadDriverMatches(header: seq<string>, rows: seq<seq<string>>) returns (r: Result<map<string, string>>)
    requires forall r :: r in rows ==> |r| == |header|
    ensures r == DriverGeneByNode(header, rows)
  {
    if rows == [] {
      return Ok(map[]);
    }
    var n := IndexOf(header, "Node_ID");
    var g := IndexOf(header, "Driver_Gene");
    if n.None? || g.None? {
      return Err(KeyError);
    }
    var byNode := CollectRows(NodeGenePairs(rows, n.value, g.value));
    r := Ok(byNode);
  }

  /** The loop body `driver_gene_by_node[node_id] = driver_gene` over the
      rows' (node, gene) pairs. */
  method CollectRows(pairs: seq<(string, string)>) returns (byNode: map<string, string>)
    ensures byNode == ToMap(pairs)
  {
    byNode := map[];
    for i := 0 to |pairs|
      invariant byNode == ToMap(pairs[..i])
    {
      assert pairs[..i + 1][..i] == pairs[..i];
      var (node, gene) := pairs[i];
      byNode := byNode[node := gene];
    }
    assert pairs[..|pairs|] == pairs;
  }

  // ---------------------------------------------------------------------
  // plot_meltos_tree: relationships and labels (lines 152-196)

  /** The (parent, child) pair of a line of the Meltos output: none for a line
      without "->", else the first word on each side of the stripped line's
      "->"; a side without a word raises IndexError. */
  function Relationship(line: string): Result<Option<(string, string)>> {
    if !Contains(line, "->") then Ok(None)
    else
      var parts := SplitOn(Strip(line), "->");
      if |parts| < 2 then Err(IndexError)
      else
        match (FirstWord(Strip(parts[0])), FirstWord(Strip(parts[1])))
        case (Some(parent), Some(child)) => Ok(Some((parent, child)))
        case _ => Err(IndexError)
  }

  /** `parts[1]` always exists: a line containing "->" still contains it once
      stripped, so it splits into at least two pieces; only a side without a
      word raises. */
  lemma RelationshipSides(line: string)
    requires Contains(line, "->")
    ensures |SplitOn(Strip(line), "->")| >= 2
    ensures Relationship(line).Err? <==>
              var parts := SplitOn(Strip(line), "->");
              FirstWord(Strip(parts[0])).None? || FirstWord(Strip(parts[1])).None?
  {
    ContainsStrip(line, "->");
    SplitOnContains(Strip(line), "->");
  }

  /** The relationships of a whole file, in line order. */
  function Relationships(lines: seq<string>): Result<seq<(string, string)>>
    decreases |lines|
  {
    if lines == [] then Ok([])
    else
      var done :- Relationships(lines[..|lines| - 1]);
      var rel :- Relationship(lines[|lines| - 1]);
      Ok(if rel.Some? then done + [rel.value] else done)
  }

  lemma {:induction false} RelationshipsSticky(lines: seq<string>, k: nat)
    requires k <= |lines| && Relationships(lines[..k]).Err?
    ensures Relationships(lines) == Relationships(lines[..k])
    decreases |lines|
  {
    if k == |lines| {
      assert lines[..k] == lines;
    } else {
      var init := lines[..|lines| - 1];
      assert init[..k] == lines[..k];
      RelationshipsSticky(init, k);
    }
  }

  /** The relationship loop (lines 178-190). */
  method ReadRelationships(lines: seq<string>) returns (r: Result<seq<(string, string)>>)
    ensures r == Relationships(lines)
  {
    var rels: seq<(string, string)> := [];
    for i := 0 to |lines|
      invariant Relationships(lines[..i]) == Ok(rels)
    {
      assert lines[..i + 1][..i] == lines[..i];
      var rel := Relationship(lines[i]);
      if rel.Err? {
        RelationshipsSticky(lines, i + 1);
        return Err(rel.error);
      }
      if rel.value.Some? {
        rels := rels + [rel.value.value];
      }
    }
    assert lines[..|lines|] == lines;
    r := Ok(rels);
  }

  /** `read_node_clone_mapping` (lines 152-159) over the (NodeID, Clade) rows:
      the last row for an ID wins. */
  function NodeCloneMapping(rows: seq<(int, string)>): map<int, string> {
    ToMap(rows)
  }

  /** The clade text of a label: the node's clade, or "Unknown" for an ID
      the mapping lacks, with every ';' replaced by ','. */
  function CladeText(n: int, mapping: map<int, string>): (r: string)
    ensures ';' !in r
  {
    var clade := if n in mapping then mapping[n] else "Unknown";
    ReplaceCharRemoves(clade, ';', ',');
    ReplaceAll(clade, ";", ",")
  }

  /** The label of a node: its ID followed by its clade text in parentheses;
      `int(id)` raises ValueError. */
  function Label(id: string, mapping: map<int, string>): Result<string> {
    match ParseInt(id)
    case None => Err(ValueError)
    case Some(n) => Ok(id + " (" + CladeText(n, mapping) + ")")
  }

  /** The label of a parent: "0" is the Normal node. */
  function ParentLabel(id: string, mapping: map<int, string>): Result<string> {
    if id == "0" then Ok("Normal") else Label(id, mapping)
  }

  /** A label starts with the node's ID and carries no ';'; only an ID that
      is not an integer fails. */
  lemma LabelSpec(id: string, mapping: map<int, string>)
    ensures Label(id, mapping).Err? <==> ParseInt(id).None?
    ensures Label(id, mapping).Ok? ==> ';' !in Label(id, mapping).value
    ensures Label(id, mapping).Ok? ==> StartsWith(Label(id, mapping).value, id + " (")
  {
    if ParseInt(id).Some? {
      var l := Label(id, mapping).value;
      assert l[..|id + " ("|] == id + " (";
      ParseIntChars(id);
      assert ';' !in id;
    }
  }

  /** An ID the mapping lacks is labelled "Unknown". */
  lemma LabelUnknown(id: string, mapping: map<int, string>)
    requires ParseInt(id).Some? && ParseInt(id).value !in mapping
    ensures Label(id, mapping) == Ok(id + " (Unknown)")
  {
    ContainsSingle("Unknown", ';');
    ReplaceAbsent("Unknown", ";", ",");
    assert CladeText(ParseInt(id).value, mapping) == "Unknown";
    assert id + " (" + "Unknown" + ")" == id + " (Unknown)";
  }

  /** Exactly the parent "0" is drawn as the Normal ellipse (lines 198-203). */
  lemma ParentLabelNormal(id: string, mapping: map<int, string>)
    ensures ParentLabel(id, mapping) == Ok("Normal") <==> id == "0"
  {
    if id != "0" && Label(id, mapping).Ok? {
      LabelSpec(id, mapping);
      var l := Label(id, mapping).value;
      assert l[|id| + 1] == '(';
    }
  }

  /** One labelled edge of the tree. */
  datatype LabelledEdge = LabelledEdge(parent: string, parentLabel: string, child: string, childLabel: string)

  /** The labelled edges of the relationships, in order. */
  function LabelledEdges(rels: seq<(string, string)>, mapping: map<int, string>): Result<seq<LabelledEdge>>
    decreases |rels|
  {
    if rels == [] then Ok([])
    else
      var done :- LabelledEdges(rels[..|rels| - 1], mapping);
      var (parent, child) := rels[|rels| - 1];
      var pl :- ParentLabel(parent, mapping);
      var cl :- Label(child, mapping);
      Ok(done + [LabelledEdge(parent, pl, child, cl)])
  }

  /** Every relationship becomes one edge, in order, between the same nodes. */
  lemma LabelledEdgesSpec(rels: seq<(string, string)>, mapping: map<int, string>)
    ensures LabelledEdges(rels, mapping).Ok? ==>
              var es := LabelledEdges(rels, mapping).value;
              |es| == |rels| &&
              forall i :: 0 <= i < |rels| ==>
                es[i].parent == rels[i].0 && es[i].child == rels[i].1 &&
                ParentLabel(rels[i].0, mapping) == Ok(es[i].parentLabel) && Label(rels[i].1, mapping) == Ok(es[i].childLabel)
    ensures LabelledEdges(rels, mapping).Err? ==> LabelledEdges(rels, mapping).error == ValueError
  {
    LabelledEdgesError(rels, mapping);
    if LabelledEdges(rels, mapping).Ok? {
      forall i | 0 <= i < |rels|
        ensures LabelledEdgeAt(rels, mapping, i)
      {
        LabelledEdgesAt(rels, mapping, i);
      }
    }
  }

  /** Edge `i` joins the nodes of relationship `i` under their labels. */
  ghost predicate LabelledEdgeAt(rels: seq<(string, string)>, mapping: map<int, string>, i: nat)
    requires LabelledEdges(rels, mapping).Ok? && i < |rels|
  {
    var es := LabelledEdges(rels, mapping).value;
    |es| == |rels| &&
    es[i].parent == rels[i].0 && es[i].child == rels[i].1 &&
    ParentLabel(rels[i].0, mapping) == Ok(es[i].parentLabel) && Label(rels[i].1, mapping) == Ok(es[i].childLabel)
  }

  lemma {:induction false} LabelledEdgesAt(rels: seq<(string, string)>, mapping: map<int, string>, i: nat)
    requires LabelledEdges(rels, mapping).Ok? && i < |rels|
    ensures LabelledEdgeAt(rels, mapping, i)
    decreases |rels|
  {
    var init := rels[..|rels| - 1];
    if i < |init| {
      LabelledEdgesAt(init, mapping, i);
      assert init[i] == rels[i];
    } else if init != [] {
      LabelledEdgesAt(init, mapping, 0);
    }
  }

  lemma {:induction false} LabelledEdgesError(rels: seq<(string, string)>, mapping: map<int, string>)
    ensures LabelledEdges(rels, mapping).Err? ==> LabelledEdges(rels, mapping).error == ValueError
    decreases |rels|
  {
    if rels != [] {
      LabelledEdgesError(rels[..|rels| - 1], mapping);
    }
  }

  lemma {:induction false} LabelledEdgesSticky(rels: seq<(string, string)>, mapping: map<int, string>, k: nat)
    requires k <= |rels| && LabelledEdges(rels[..k], mapping).Err?
    ensures LabelledEdges(rels, mapping) == LabelledEdges(rels[..k], mapping)
    decreases |rels|
  {
    if k == |rels| {
      assert rels[..k] == rels;
    } else {
      var init := rels[..|rels| - 1];
      assert init[..k] == rels[..k];
      LabelledEdgesSticky(init, mapping, k);
    }
  }

  /** The labelling loop (lines 192-206), without the drawing calls. */
  method LabelRelationships(rels: seq<(string, string)>, mapping: map<int, string>) returns (r: Result<seq<LabelledEdge>>)
    ensures r == LabelledEdges(rels, mapping)
  {
    var edges: seq<LabelledEdge> := [];
    for i := 0 to |rels|
      invariant LabelledEdges(rels[..i], mapping) == Ok(edges)
    {
      assert rels[..i + 1][..i] == rels[..i];
      var (parent, child) := rels[i];
      var parentLabel;
      if parent == "0" {
        parentLabel := Ok("Normal");
      } else {
        parentLabel := Label(parent, mapping);
      }
      if parentLabel.Err? {
        LabelledEdgesSticky(rels, mapping, i + 1);
        return Err(parentLabel.error);
      }
      var childLabel := Label(child, mapping);
      if childLabel.Err? {
        LabelledEdgesSticky(rels, mapping, i + 1);
        return Err(childLabel.error);
      }
      edges := edges + [LabelledEdge(parent, parentLabel.value, child, childLabel.value)];
    }
    assert rels[..|rels|] == rels;
    r := Ok(edges);
  }

  /** The relationships and labels `plot_meltos_tree` draws for a Meltos
      output file and the node-to-clade rows. */
  method PlotMeltosTreeEdges(lines: seq<string>, cladeRows: seq<(int, string)>) returns (r: Result<seq<LabelledEdge>>)
    ensures Relationships(lines).Err? ==> r == Err(Relationships(lines).error)
    ensures Relationships(lines).Ok? ==> r == LabelledEdges(Relationships(lines).value, NodeCloneMapping(cladeRows))
  {
    var rels := ReadRelationships(lines);
    if rels.Err? {
      return Err(rels.error);
    }
    r := LabelRelationships(rels.value, NodeCloneMapping(cladeRows));
  }
}
