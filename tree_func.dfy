/** The text-level logic of plot_scripts/tree_func.py: completing the root
    of the CloneFinder summary's parent->child edge list
    (`find_and_append_root_node`, lines 180-215), the node and edge
    selection of `plot_tree` (lines 39-75), `debug_print_tree_lines`
    (lines 17-29) and `calculate_edge_midpoint` (lines 386-404).  The local
    `parse_csv_files`, `process_driver_file` and `match_positions` (lines
    428-494) are the ones of module DriverJoin. */
module TreeFunc {
  import opened Wrappers
  import opened Text
  import opened Dicts

  // ---------------------------------------------------------------------
  // Edge lines

  /** The lines of a file's text: the pieces between newlines.  Iterating
      over the file yields each piece followed by its '\n'; `strip` drops
      that terminator again, and the empty piece after a final '\n' never
      contains "->". */
  function Lines(text: string): seq<string> {
    Split(text, '\n')
  }

  /** `parent, child = line.strip().split("->")` and stripping both sides;
      ValueError unless the line has exactly one "->". */
  function ParseEdge(line: string): Result<(string, string)> {
    var parts := SplitOn(Strip(line), "->");
    if |parts| != 2 then Err(ValueError) else Ok((Strip(parts[0]), Strip(parts[1])))
  }

  /** The (parent, child) pairs of the lines that contain "->", in file order. */
  function EdgePairs(lines: seq<string>): Result<seq<(string, string)>>
    decreases |lines|
  {
    if lines == [] then Ok([])
    else
      var init :- EdgePairs(lines[..|lines| - 1]);
      var last := lines[|lines| - 1];
      if !Contains(last, "->") then Ok(init)
      else
        var e :- ParseEdge(last);
        Ok(init + [e])
  }

  function Parents(ps: seq<(string, string)>): set<string>
    decreases |ps|
  {
    if ps == [] then {} else Parents(ps[..|ps| - 1]) + {ps[|ps| - 1].0}
  }

  function Children(ps: seq<(string, string)>): set<string>
    decreases |ps|
  {
    if ps == [] then {} else Children(ps[..|ps| - 1]) + {ps[|ps| - 1].1}
  }

  lemma {:induction false} ParentsChildren(ps: seq<(string, string)>)
    ensures forall x :: x in Parents(ps) <==> exists i :: 0 <= i < |ps| && ps[i].0 == x
    ensures forall x :: x in Children(ps) <==> exists i :: 0 <= i < |ps| && ps[i].1 == x
    decreases |ps|
  {
    if ps != [] {
      var init := ps[..|ps| - 1];
      ParentsChildren(init);
      assert forall i :: 0 <= i < |init| ==> init[i] == ps[i];
    }
  }

  /** `root_nodes`: the parents that are nobody's child, without "Normal". */
  function Roots(ps: seq<(string, string)>): set<string> {
    Parents(ps) - Children(ps) - {"Normal"}
  }

  /** The line `append_normal_relationship` writes. */
  function RootLine(r: string): string {
    "Normal->" + r + "\n"
  }

  function RootLines(rs: seq<string>): string
    decreases |rs|
  {
    if rs == [] then "" else RootLine(rs[0]) + RootLines(rs[1..])
  }

  lemma {:induction false} RootLinesSnoc(rs: seq<string>, x: string)
    ensures RootLines(rs + [x]) == RootLines(rs) + RootLine(x)
    decreases |rs|
  {
    if rs != [] {
      assert (rs + [x])[1..] == rs[1..] + [x];
      RootLinesSnoc(rs[1..], x);
    }
  }

  /** Once a line fails to parse, the whole file fails. */
  lemma {:induction false} EdgePairsSticky(lines: seq<string>, k: nat)
    requires k <= |lines| && EdgePairs(lines[..k]).Err?
    ensures EdgePairs(lines) == Err(ValueError)
    decreases |lines|
  {
    if k == |lines| {
      assert lines[..k] == lines;
      EdgePairsErr(lines);
    } else {
      var init := lines[..|lines| - 1];
      assert init[..k] == lines[..k];
      EdgePairsSticky(init, k);
    }
  }

  lemma {:induction false} EdgePairsErr(lines: seq<string>)
    ensures EdgePairs(lines).Err? ==> EdgePairs(lines) == Err(ValueError)
    decreases |lines|
  {
    if lines != [] {
      EdgePairsErr(lines[..|lines| - 1]);
    }
  }

  // ---------------------------------------------------------------------
  // find_and_append_root_node

  /** The line loop of `find_and_append_root_node` (lines 185-194): the
      sets of parents and children and whether some parent is "Normal". */
  method ScanEdges(lines: seq<string>) returns (r: Result<(set<string>, set<string>, bool)>)
    ensures r.Err? <==> EdgePairs(lines).Err?
    ensures r.Err? ==> r.error == ValueError
    ensures r.Ok? ==> r.value == (Parents(EdgePairs(lines).value), Children(EdgePairs(lines).value),
                                  "Normal" in Parents(EdgePairs(lines).value))
  {
    var parents: set<string> := {};
    var children: set<string> := {};
    var normal := false;
    ghost var ps: seq<(string, string)> := [];
    var i := 0;
    while i < |lines|
      invariant 0 <= i <= |lines|
      invariant EdgePairs(lines[..i]) == Ok(ps)
      invariant parents == Parents(ps) && children == Children(ps)
      invariant normal <==> "Normal" in Parents(ps)
    {
      assert lines[..i + 1][..i] == lines[..i];
      var line := lines[i];
      if Contains(line, "->") {
        var e := ParseEdge(line);
        if e.Err? {
          assert EdgePairs(lines[..i + 1]).Err?;
          EdgePairsSticky(lines, i + 1);
          return Err(ValueError);
        }
        var (parent, child) := e.value;
        if parent == "Normal" {
          normal := true;
        }
        parents := parents + {parent};
        children := children + {child};
        assert EdgePairs(lines[..i + 1]) == Ok(ps + [e.value]);
        assert (ps + [e.value])[..|ps|] == ps;
        ps := ps + [e.value];
      } else {
        assert EdgePairs(lines[..i + 1]) == Ok(ps);
      }
      i := i + 1;
    }
    assert lines[..i] == lines;
    return Ok((parents, children, normal));
  }

  /** The `for root_node in root_nodes` loop (lines 201-205): one line per
      root, in whatever order the set yields them. */
  method AppendRoots(text: string, roots: set<string>) returns (out: string)
    ensures exists added: seq<string> :: Distinct(added) && out == text + RootLines(added) &&
                                        forall x :: x in added <==> x in roots
  {
    var rest := roots;
    out := text;
    ghost var added: seq<string> := [];
    while rest != {}
      invariant out == text + RootLines(added)
      invariant Distinct(added)
      invariant rest <= roots
      invariant forall x :: x in added <==> x in roots && x !in rest
      decreases |rest|
    {
      var x :| x in rest;
      RootLinesSnoc(added, x);
      DistinctAppend(added, x);
      out := out + RootLine(x);
      added := added + [x];
      rest := rest - {x};
    }
  }

  /** `find_and_append_root_node` (lines 180-215) on the file's text: the
      text after the appends, or the ValueError of a line that does not
      split into exactly two sides, raised before anything is appended. */
  method FindAndAppendRootNode(text: string) returns (r: Result<string>)
    ensures r.Err? <==> EdgePairs(Lines(text)).Err?
    ensures r.Err? ==> r.error == ValueError
    ensures r.Ok? && "Normal" in Parents(EdgePairs(Lines(text)).value) ==> r.value == text
    ensures r.Ok? && "Normal" !in Parents(EdgePairs(Lines(text)).value) ==>
              exists added: seq<string> :: Distinct(added) && r.value == text + RootLines(added) &&
                                          forall x :: x in added <==> x in Roots(EdgePairs(Lines(text)).value)
  {
    var scan := ScanEdges(Lines(text));
    if scan.Err? {
      return Err(scan.error);
    }
    var (parents, children, normal) := scan.value;
    if normal {
      return Ok(text);
    }
    var out := AppendRoots(text, parents - children - {"Normal"});
    return Ok(out);
  }

  /** A name that survives both strips and can be written back into an
      edge line: no newline, no "->", no surrounding whitespace. */
  predicate Clean(x: string) {
    '\n' !in x && !Contains(x, "->") && Strip(x) == x
  }

  /** Both sides of a parsed edge line are clean. */
  lemma ParseEdgeClean(line: string)
    requires '\n' !in line && ParseEdge(line).Ok?
    ensures Clean(ParseEdge(line).value.0) && Clean(ParseEdge(line).value.1)
  {
    var s := Strip(line);
    var a := StripSlice(line);
    assert forall j :: 0 <= j < |s| ==> s[j] == line[a + j];
    assert '\n' !in s;
    var parts := SplitOn(s, "->");
    SplitOnPieces(s, "->");
    PieceClean(parts[0]);
    PieceClean(parts[1]);
  }

  lemma PieceClean(p: string)
    requires '\n' !in p && !Contains(p, "->")
    ensures Clean(Strip(p))
  {
    var q := Strip(p);
    var b := StripSlice(p);
    assert forall j :: 0 <= j < |q| ==> q[j] == p[b + j];
    if Contains(q, "->") {
      ContainsSlice(p, b, b + |q|, "->");
    }
    StripIdempotent(p);
  }

  /** Every name in the pairs of newline-free lines is clean. */
  lemma {:induction false} EdgePairsClean(lines: seq<string>)
    requires forall i :: 0 <= i < |lines| ==> '\n' !in lines[i]
    requires EdgePairs(lines).Ok?
    ensures forall i :: 0 <= i < |EdgePairs(lines).value| ==>
              Clean(EdgePairs(lines).value[i].0) && Clean(EdgePairs(lines).value[i].1)
    decreases |lines|
  {
    if lines != [] {
      var init := lines[..|lines| - 1];
      assert forall i :: 0 <= i < |init| ==> init[i] == lines[i];
      EdgePairsClean(init);
      var last := lines[|lines| - 1];
      if Contains(last, "->") {
        ParseEdgeClean(last);
      }
    }
  }

  /** The pairs of two consecutive parts of a file are the pairs of each. */
  lemma {:induction false} EdgePairsConcat(a: seq<string>, b: seq<string>)
    requires EdgePairs(a).Ok? && EdgePairs(b).Ok?
    ensures EdgePairs(a + b) == Ok(EdgePairs(a).value + EdgePairs(b).value)
    decreases |b|
  {
    if b == [] {
      assert a + b == a;
      assert EdgePairs(a).value + EdgePairs(b).value == EdgePairs(a).value;
    } else {
      var init := b[..|b| - 1];
      var last := b[|b| - 1];
      assert (a + b)[..|a + b| - 1] == a + init && (a + b)[|a + b| - 1] == last;
      assert EdgePairs(init).Ok?;
      EdgePairsConcat(a, init);
      if Contains(last, "->") {
        var e := ParseEdge(last).value;
        assert EdgePairs(b) == Ok(EdgePairs(init).value + [e]);
        assert EdgePairs(a + b) == Ok((EdgePairs(a).value + EdgePairs(init).value) + [e]);
        assert (EdgePairs(a).value + EdgePairs(init).value) + [e] == EdgePairs(a).value + (EdgePairs(init).value + [e]);
      }
    }
  }

  /** The line written for a clean root parses back to (Normal, root). */
  lemma ParseRootLine(x: string)
    requires Clean(x)
    ensures Contains("Normal->" + x, "->")
    ensures ParseEdge("Normal->" + x) == Ok(("Normal", x))
  {
    var s := "Normal->" + x;
    assert s[6..8] == "->";
    ContainsAt(s, "->", 6);
    StripEnds(x);
    assert s[0] == 'N';
    if x != [] {
      assert s[|s| - 1] == x[|x| - 1];
    }
    StripNoEnds(s);
    assert s == "Normal" + "->" + x;
    SplitOnAfterPiece("Normal", "->", x);
    SplitOnNoSeparator(x, "->");
    StripNoEnds("Normal");
  }

  /** The lines that the appends add, without their newlines. */
  function RootPieces(rs: seq<string>): (r: seq<string>)
    ensures |r| == |rs| && forall i :: 0 <= i < |rs| ==> r[i] == "Normal->" + rs[i]
  {
    seq(|rs|, i requires 0 <= i < |rs| => "Normal->" + rs[i])
  }

  function NormalPairs(rs: seq<string>): (r: seq<(string, string)>)
    ensures |r| == |rs| && forall i :: 0 <= i < |rs| ==> r[i] == ("Normal", rs[i])
  {
    seq(|rs|, i requires 0 <= i < |rs| => ("Normal", rs[i]))
  }

  lemma {:induction false} SplitRootLines(rs: seq<string>)
    requires forall i :: 0 <= i < |rs| ==> '\n' !in rs[i]
    ensures Lines(RootLines(rs)) == RootPieces(rs) + [""]
    decreases |rs|
  {
    if rs != [] {
      SplitRootLines(rs[1..]);
      var p := "Normal->" + rs[0];
      assert '\n' !in p;
      assert RootLines(rs) == p + ['\n'] + RootLines(rs[1..]);
      SplitAfterPiece(p, RootLines(rs[1..]), '\n');
      assert RootPieces(rs) == [p] + RootPieces(rs[1..]);
    }
  }

  lemma {:induction false} EdgePairsRootPieces(rs: seq<string>)
    requires forall i :: 0 <= i < |rs| ==> Clean(rs[i])
    ensures EdgePairs(RootPieces(rs)) == Ok(NormalPairs(rs))
    decreases |rs|
  {
    if rs != [] {
      var n := |rs| - 1;
      assert RootPieces(rs)[..n] == RootPieces(rs[..n]);
      EdgePairsRootPieces(rs[..n]);
      ParseRootLine(rs[n]);
      assert NormalPairs(rs) == NormalPairs(rs[..n]) + [("Normal", rs[n])];
    }
  }

  /** A trailing empty line adds no pair. */
  lemma EdgePairsEmptyLast(lines: seq<string>)
    ensures EdgePairs(lines + [""]) == EdgePairs(lines)
  {
    assert (lines + [""])[..|lines|] == lines;
    assert !Contains("", "->");
  }

  /** The parents of a file's pairs are clean names. */
  lemma ParentsClean(text: string)
    requires EdgePairs(Lines(text)).Ok?
    ensures forall x :: x in Parents(EdgePairs(Lines(text)).value) ==> Clean(x)
  {
    var ps := EdgePairs(Lines(text)).value;
    SplitPiecesLackSeparator(text, '\n');
    EdgePairsClean(Lines(text));
    ParentsChildren(ps);
  }

  /** The root lines alone read back as one (Normal, root) pair each. */
  lemma RootLinesParse(added: seq<string>)
    requires forall i :: 0 <= i < |added| ==> Clean(added[i])
    ensures EdgePairs(Lines(RootLines(added))) == Ok(NormalPairs(added))
  {
    SplitRootLines(added);
    EdgePairsRootPieces(added);
    EdgePairsEmptyLast(RootPieces(added));
  }

  /** A final newline adds only an empty line. */
  lemma TrailingNewline(t: string)
    ensures EdgePairs(Lines(t + "\n")) == EdgePairs(Lines(t))
  {
    assert t + "\n" == t + ['\n'] + "";
    SplitConcat(t, "", '\n');
    EdgePairsEmptyLast(Lines(t));
  }

  /** The text before a newline and the text after it read back one after
      the other. */
  lemma NewlineJoin(t: string, rl: string)
    requires EdgePairs(Lines(t)).Ok? && EdgePairs(Lines(rl)).Ok?
    ensures EdgePairs(Lines(t + "\n" + rl)) == Ok(EdgePairs(Lines(t)).value + EdgePairs(Lines(rl)).value)
  {
    assert t + "\n" + rl == t + ['\n'] + rl;
    SplitConcat(t, rl, '\n');
    EdgePairsConcat(Lines(t), Lines(rl));
  }

  /** A file ending in a newline followed by root lines reads back as its
      pairs followed by the root pairs. */
  lemma NonEmptyAppendParse(t: string, added: seq<string>)
    requires EdgePairs(Lines(t + "\n")).Ok?
    requires forall i :: 0 <= i < |added| ==> Clean(added[i])
    ensures EdgePairs(Lines(t + "\n" + RootLines(added))) == Ok(EdgePairs(Lines(t + "\n")).value + NormalPairs(added))
  {
    TrailingNewline(t);
    RootLinesParse(added);
    NewlineJoin(t, RootLines(added));
  }

  /** After appending root lines for parents of the file, a file that is
      empty or ends with a newline reads back as its old pairs followed by
      one (Normal, root) pair per appended line. */
  lemma AppendedRootsParse(text: string, added: seq<string>)
    requires text == [] || text[|text| - 1] == '\n'
    requires EdgePairs(Lines(text)).Ok?
    requires forall x :: x in added ==> x in Parents(EdgePairs(Lines(text)).value)
    ensures EdgePairs(Lines(text + RootLines(added))) == Ok(EdgePairs(Lines(text)).value + NormalPairs(added))
  {
    ParentsClean(text);
    assert forall i :: 0 <= i < |added| ==> added[i] in added;
    if text == [] {
      assert Lines(text) == [""];
      assert text + RootLines(added) == RootLines(added);
      RootLinesParse(added);
    } else {
      var t := text[..|text| - 1];
      assert text == t + "\n";
      NonEmptyAppendParse(t, added);
    }
  }

  /** Root completion is idempotent: once a line has been appended, the
      file has a "Normal" parent, so a second run leaves it unchanged (and
      a run that appends nothing changes nothing).  This needs the file to
      be empty or to end with a newline; otherwise the first appended line
      is glued to the last line of the file. */
  lemma RootCompletionIdempotent(text: string, added: seq<string>)
    requires text == [] || text[|text| - 1] == '\n'
    requires EdgePairs(Lines(text)).Ok?
    requires forall x :: x in added <==> x in Roots(EdgePairs(Lines(text)).value)
    ensures EdgePairs(Lines(text + RootLines(added))).Ok?
    ensures added != [] ==> "Normal" in Parents(EdgePairs(Lines(text + RootLines(added))).value)
    ensures added == [] ==> text + RootLines(added) == text
  {
    AppendedRootsParse(text, added);
    if added != [] {
      var ps := EdgePairs(Lines(text)).value + NormalPairs(added);
      ParentsChildren(ps);
      assert ps[|EdgePairs(Lines(text)).value|].0 == "Normal";
    }
  }

  /** The one-line file "A->B" holds the edge (A, B). */
  lemma OneEdgeFile()
    ensures EdgePairs(Lines("A->B")) == Ok([("A", "B")])
  {
    var sep := "->";
    var one := "A->B";
    assert !Contains("B", sep) by { ContainsIff("B", sep); }
    SplitOnNoSeparator("B", sep);
    StripNoEnds("A");
    StripNoEnds("B");
    SplitNoSeparator(one, '\n');
    ContainsAt(one, sep, 1);
    StripNoEnds(one);
    SplitOnAfterPiece("A", sep, "B");
    assert one == "A" + sep + "B";
    assert ParseEdge(one) == Ok(("A", "B"));
    assert [one][..0] == [];
    var ps: seq<(string, string)> := [];
    assert Lines(one) == [one];
    assert Contains([one][0], "->");
    assert EdgePairs([one][..0]) == Ok(ps);
    assert EdgePairs([one]) == Ok(ps + [("A", "B")]);
    assert ps + [("A", "B")] == [("A", "B")];
  }

  /** The line "A->BNormal->A" has two "->" and fails to parse. */
  lemma GluedLineFails()
    ensures ParseEdge("A->BNormal->A") == Err(ValueError)
  {
    var sep := "->";
    var tail := "BNormal" + sep + "A";
    var glued := "A" + sep + tail;
    assert glued == "A->BNormal->A";
    assert !Contains("A", sep) by { ContainsIff("A", sep); }
    SplitOnNoSeparator("A", sep);
    SplitOnAfterPiece("BNormal", sep, "A");
    SplitOnAfterPiece("A", sep, tail);
    assert SplitOn(glued, sep) == ["A", "BNormal", "A"];
    StripNoEnds(glued);
  }

  /** A file whose last line has no newline does not complete twice: for
      "A->B" the first run appends "Normal->A" onto that line, and the file
      then reads as a line with two "->", which fails with ValueError. */
  lemma GluedRootLineFails()
    ensures EdgePairs(Lines("A->B")).Ok? && Roots(EdgePairs(Lines("A->B")).value) == {"A"}
    ensures EdgePairs(Lines("A->B" + RootLines(["A"]))) == Err(ValueError)
  {
    OneEdgeFile();
    var ps := [("A", "B")];
    assert ps[..0] == [];
    assert Parents(ps) == {"A"} && Children(ps) == {"B"};
    var glued := "A->BNormal->A";
    assert RootLines(["A"]) == "Normal->A\n";
    assert "A->B" + RootLines(["A"]) == glued + ['\n'] + "";
    SplitAfterPiece(glued, "", '\n');
    SplitNoSeparator("", '\n');
    var lines := [glued, ""];
    assert Lines("A->B" + RootLines(["A"])) == lines;
    ContainsAt(glued, "->", 1);
    GluedLineFails();
    assert lines[..1] == [glued] && [glued][..0] == [];
    assert EdgePairs(lines[..1]) == Err(ValueError);
  }

  // ---------------------------------------------------------------------
  // plot_tree

  /** One row of the summary table as pandas reads it: the "New branch ID"
      cell and the "Number of mutations" cell, None where pandas has NaN. */
  datatype SummaryRow = SummaryRow(branch: string, count: Option<real>)

  /** `int(x)` of a float: truncation toward zero. */
  function Truncate(x: real): (n: int)
    ensures x >= 0.0 ==> n as real <= x < n as real + 1.0
    ensures x < 0.0 ==> n as real - 1.0 < x <= n as real
  {
    if x >= 0.0 then x.Floor else -((-x).Floor)
  }

  /** The graph handed to graphviz: the `dot.node(name, label)` calls and
      the `dot.edge(parent, child)` calls, in order. */
  datatype Graph = Graph(nodes: seq<(string, string)>, edges: seq<(string, string)>)

  /** `nodes`: each branch with a mutation count, mapped to its truncated
      count; a later row overwrites an earlier one. */
  function NodeCounts(rows: seq<SummaryRow>): map<string, int>
    decreases |rows|
  {
    if rows == [] then map[]
    else
      var init := NodeCounts(rows[..|rows| - 1]);
      var last := rows[|rows| - 1];
      if last.count.Some? then init[last.branch := Truncate(last.count.value)] else init
  }

  /** The nodes are exactly the branches of rows with a count. */
  lemma {:induction false} NodeCountsKeys(rows: seq<SummaryRow>)
    ensures forall b :: b in NodeCounts(rows) <==>
              exists i :: 0 <= i < |rows| && rows[i].branch == b && rows[i].count.Some?
    decreases |rows|
  {
    if rows != [] {
      var init := rows[..|rows| - 1];
      NodeCountsKeys(init);
      assert forall i :: 0 <= i < |init| ==> init[i] == rows[i];
    }
  }

  /** Each node has the truncated count of the last row with its name and
      a count. */
  lemma {:induction false} NodeCountsLast(rows: seq<SummaryRow>, b: string)
    requires b in NodeCounts(rows)
    ensures exists i :: 0 <= i < |rows| && rows[i].branch == b && rows[i].count.Some? &&
                        NodeCounts(rows)[b] == Truncate(rows[i].count.value) &&
                        forall j :: i < j < |rows| && rows[j].branch == b ==> rows[j].count.None?
    decreases |rows|
  {
    var init := rows[..|rows| - 1];
    var last := rows[|rows| - 1];
    if last.count.Some? && last.branch == b {
      assert rows[|rows| - 1].branch == b;
    } else {
      NodeCountsLast(init, b);
      var i :| 0 <= i < |init| && init[i].branch == b && init[i].count.Some? &&
               NodeCounts(init)[b] == Truncate(init[i].count.value) &&
               forall j :: i < j < |init| && init[j].branch == b ==> init[j].count.None?;
      assert rows[i] == init[i];
      assert forall j :: i < j < |init| ==> rows[j] == init[j];
    }
  }

  /** `label`: the node name, a newline and the truncated count in brackets. */
  function NodeLabel(name: string, count: real): string {
    name + "\n(" + IntToString(Truncate(count)) + ")"
  }

  /** The `dot.node` calls of the row loop (lines 46-55). */
  function NodeCalls(rows: seq<SummaryRow>): seq<(string, string)>
    decreases |rows|
  {
    if rows == [] then []
    else
      var last := rows[|rows| - 1];
      NodeCalls(rows[..|rows| - 1]) + (if last.count.Some? then [(last.branch, NodeLabel(last.branch, last.count.value))] else [])
  }

  predicate IsTreeHeader(line: string) {
    StartsWith(line, "#Tree")
  }

  /** Some line of `lines` starts with "#Tree". */
  predicate Started(lines: seq<string>) {
    exists j :: 0 <= j < |lines| && IsTreeHeader(lines[j])
  }

  /** The lines the edge loop parses: those after the first "#Tree" line
      that contain "->" and are not themselves "#Tree" lines. */
  function TreeLines(lines: seq<string>): seq<string>
    decreases |lines|
  {
    if lines == [] then []
    else
      var init := lines[..|lines| - 1];
      var last := lines[|lines| - 1];
      TreeLines(init) + (if !IsTreeHeader(last) && Started(init) && Contains(last, "->") then [last] else [])
  }

  /** A line is parsed exactly when it contains "->", is not a "#Tree"
      line, and comes after a "#Tree" line; no line is parsed in a file
      without one. */
  lemma {:induction false} TreeLinesSpec(lines: seq<string>)
    ensures forall x :: x in TreeLines(lines) <==>
              exists k :: 0 <= k < |lines| && lines[k] == x && Contains(x, "->") && !IsTreeHeader(x) && Started(lines[..k])
    ensures !Started(lines) ==> TreeLines(lines) == []
    decreases |lines|
  {
    if lines != [] {
      var init := lines[..|lines| - 1];
      TreeLinesSpec(init);
      assert forall k :: 0 <= k < |init| ==> init[k] == lines[k] && init[..k] == lines[..k];
      forall x | x in TreeLines(lines)
        ensures exists k :: 0 <= k < |lines| && lines[k] == x && Contains(x, "->") && !IsTreeHeader(x) && Started(lines[..k])
      {
        if x !in TreeLines(init) {
          assert x == lines[|lines| - 1] && lines[..|lines| - 1] == init;
        }
      }
    }
  }

  /** An edge is drawn when both ends are nodes, or the parent is "Normal". */
  predicate Keep(e: (string, string), nodes: map<string, int>) {
    (e.0 in nodes && e.1 in nodes) || e.0 == "Normal"
  }

  function KeptEdges(ps: seq<(string, string)>, nodes: map<string, int>): (r: seq<(string, string)>)
    decreases |ps|
  {
    if ps == [] then []
    else
      var last := ps[|ps| - 1];
      KeptEdges(ps[..|ps| - 1], nodes) + (if Keep(last, nodes) then [last] else [])
  }

  /** The kept edges are the parsed pairs that satisfy Keep. */
  lemma {:induction false} KeptEdgesSpec(ps: seq<(string, string)>, nodes: map<string, int>)
    ensures forall e :: e in KeptEdges(ps, nodes) <==> e in ps && Keep(e, nodes)
    decreases |ps|
  {
    if ps != [] {
      KeptEdgesSpec(ps[..|ps| - 1], nodes);
      assert ps == ps[..|ps| - 1] + [ps[|ps| - 1]];
    }
  }

  /** The graph of lines 39-75 for the summary table `rows` and the file
      `lines`; ValueError when an edge line does not split in two. */
  function TreeGraph(rows: seq<SummaryRow>, lines: seq<string>): Result<Graph> {
    var ps :- EdgePairs(TreeLines(lines));
    var normal := if exists i :: 0 <= i < |rows| && rows[i].branch == "Normal" then [] else [("Normal", "Normal")];
    Ok(Graph(normal + NodeCalls(rows), KeptEdges(ps, NodeCounts(rows))))
  }

  /** The node loop (lines 46-55). */
  method AddNodes(rows: seq<SummaryRow>) returns (calls: seq<(string, string)>, nodes: map<string, int>)
    ensures calls == NodeCalls(rows) && nodes == NodeCounts(rows)
  {
    calls := [];
    nodes := map[];
    var i := 0;
    while i < |rows|
      invariant 0 <= i <= |rows|
      invariant calls == NodeCalls(rows[..i]) && nodes == NodeCounts(rows[..i])
    {
      assert rows[..i + 1][..i] == rows[..i];
      var row := rows[i];
      if row.count.Some? {
        calls := calls + [(row.branch, NodeLabel(row.branch, row.count.value))];
        nodes := nodes[row.branch := Truncate(row.count.value)];
      }
      i := i + 1;
    }
    assert rows[..i] == rows;
  }

  /** The edge loop (lines 57-75) with its `tree_structure_started` flag. */
  method AddEdges(lines: seq<string>, nodes: map<string, int>) returns (r: Result<seq<(string, string)>>)
    ensures r.Err? <==> EdgePairs(TreeLines(lines)).Err?
    ensures r.Err? ==> r.error == ValueError
    ensures r.Ok? ==> r.value == KeptEdges(EdgePairs(TreeLines(lines)).value, nodes)
  {
    var started := false;
    var edges: seq<(string, string)> := [];
    ghost var ps: seq<(string, string)> := [];
    var i := 0;
    while i < |lines|
      invariant 0 <= i <= |lines|
      invariant started <==> Started(lines[..i])
      invariant EdgePairs(TreeLines(lines[..i])) == Ok(ps)
      invariant edges == KeptEdges(ps, nodes)
    {
      var line := lines[i];
      TreeLinesStep(lines, i);
      if IsTreeHeader(line) {
        assert TreeLines(lines[..i + 1]) == TreeLines(lines[..i]);
        started := true;
      } else if !(started && Contains(line, "->")) {
        assert TreeLines(lines[..i + 1]) == TreeLines(lines[..i]);
      } else {
        var parsed := ParseEdge(line);
        if parsed.Err? {
          ParsedLineFails(lines, i, ps);
          return Err(ValueError);
        }
        ParsedLineStep(lines, i, ps);
        var e := parsed.value;
        assert (ps + [e])[..|ps|] == ps;
        if (e.0 in nodes && e.1 in nodes) || e.0 == "Normal" {
          edges := edges + [e];
        }
        ps := ps + [e];
      }
      i := i + 1;
    }
    assert lines[..i] == lines;
    return Ok(edges);
  }

  /** One more line of the file: the flag and the parsed lines it adds. */
  lemma TreeLinesStep(lines: seq<string>, i: nat)
    requires i < |lines|
    ensures Started(lines[..i + 1]) <==> Started(lines[..i]) || IsTreeHeader(lines[i])
    ensures TreeLines(lines[..i + 1]) ==
              TreeLines(lines[..i]) + (if !IsTreeHeader(lines[i]) && Started(lines[..i]) && Contains(lines[i], "->") then [lines[i]] else [])
  {
    assert lines[..i + 1][..i] == lines[..i];
    assert lines[..i + 1][i] == lines[i];
    assert forall j :: 0 <= j < i ==> lines[..i + 1][j] == lines[..i][j];
  }

  /** A parsed line extends the pairs by its edge. */
  lemma ParsedLineStep(lines: seq<string>, i: nat, ps: seq<(string, string)>)
    requires i < |lines| && EdgePairs(TreeLines(lines[..i])) == Ok(ps)
    requires !IsTreeHeader(lines[i]) && Started(lines[..i]) && Contains(lines[i], "->")
    requires ParseEdge(lines[i]).Ok?
    ensures EdgePairs(TreeLines(lines[..i + 1])) == Ok(ps + [ParseEdge(lines[i]).value])
  {
    TreeLinesStep(lines, i);
    EdgePairsStep(TreeLines(lines[..i]), lines[i], ps);
  }

  /** A parsed line that does not split in two makes the whole file fail. */
  lemma ParsedLineFails(lines: seq<string>, i: nat, ps: seq<(string, string)>)
    requires i < |lines| && EdgePairs(TreeLines(lines[..i])) == Ok(ps)
    requires !IsTreeHeader(lines[i]) && Started(lines[..i]) && Contains(lines[i], "->")
    requires ParseEdge(lines[i]).Err?
    ensures EdgePairs(TreeLines(lines)) == Err(ValueError)
  {
    TreeLinesStep(lines, i);
    var next := TreeLines(lines[..i + 1]);
    EdgePairsStep(TreeLines(lines[..i]), lines[i], ps);
    TreeLinesPrefix(lines, i + 1);
    EdgePairsStickyPrefix(TreeLines(lines), next);
  }

  lemma EdgePairsStickyPrefix(all: seq<string>, prefix: seq<string>)
    requires |prefix| <= |all| && all[..|prefix|] == prefix && EdgePairs(prefix).Err?
    ensures EdgePairs(all) == Err(ValueError)
  {
    EdgePairsSticky(all, |prefix|);
  }

  /** One more line with "->": its edge, or the failure to split it. */
  lemma EdgePairsStep(ts: seq<string>, line: string, ps: seq<(string, string)>)
    requires EdgePairs(ts) == Ok(ps) && Contains(line, "->")
    ensures ParseEdge(line).Err? ==> EdgePairs(ts + [line]).Err?
    ensures ParseEdge(line).Ok? ==> EdgePairs(ts + [line]) == Ok(ps + [ParseEdge(line).value])
  {
    assert (ts + [line])[..|ts|] == ts;
  }

  /** The lines parsed from a prefix of the file are a prefix of those
      parsed from the whole file. */
  lemma {:induction false} TreeLinesPrefix(lines: seq<string>, k: nat)
    requires k <= |lines|
    ensures |TreeLines(lines[..k])| <= |TreeLines(lines)|
    ensures TreeLines(lines)[..|TreeLines(lines[..k])|] == TreeLines(lines[..k])
    decreases |lines| - k
  {
    if k < |lines| {
      TreeLinesPrefix(lines, k + 1);
      assert lines[..k + 1][..k] == lines[..k];
    } else {
      assert lines[..k] == lines;
    }
  }

  /** Lines 39-75 of `plot_tree`, after `find_and_append_root_node` has run
      on the file: `rows` is the summary table pandas reads from the file. */
  method PlotTreeGraph(rows: seq<SummaryRow>, text: string) returns (r: Result<Graph>)
    ensures r == TreeGraph(rows, Lines(text))
  {
    var hasNormal := false;
    var i := 0;
    while i < |rows|
      invariant 0 <= i <= |rows|
      invariant hasNormal <==> exists j :: 0 <= j < i && rows[j].branch == "Normal"
    {
      if rows[i].branch == "Normal" {
        hasNormal := true;
      }
      i := i + 1;
    }
    var calls, nodes := AddNodes(rows);
    var edges := AddEdges(Lines(text), nodes);
    EdgePairsErr(TreeLines(Lines(text)));
    if edges.Err? {
      return Err(edges.error);
    }
    var normal := if hasNormal then [] else [("Normal", "Normal")];
    return Ok(Graph(normal + calls, edges.value));
  }

  // ---------------------------------------------------------------------
  // debug_print_tree_lines

  /** The lines printed from `lines` onwards, `started` telling whether a
      "#Tree" line has been seen. */
  function DebugLines(lines: seq<string>, started: bool): seq<string>
    decreases |lines|
  {
    if lines == [] then []
    else if IsTreeHeader(lines[0]) then DebugLines(lines[1..], true)
    else if !started then DebugLines(lines[1..], false)
    else if Strip(lines[0]) == "" then []
    else [Strip(lines[0])] + DebugLines(lines[1..], true)
  }

  /** `debug_print_tree_lines` (lines 17-29), returning what it prints
      after its heading. */
  method DebugPrintTreeLines(text: string) returns (out: seq<string>)
    ensures out == DebugLines(Lines(text), false)
  {
    var lines := Lines(text);
    var started := false;
    out := [];
    var i := 0;
    while i < |lines|
      invariant 0 <= i <= |lines|
      invariant out + DebugLines(lines[i..], started) == DebugLines(lines, false)
    {
      var line := lines[i];
      assert lines[i..][1..] == lines[i + 1..];
      if IsTreeHeader(line) {
        started := true;
      } else if started {
        if Strip(line) != "" {
          out := out + [Strip(line)];
        } else {
          assert out + DebugLines(lines[i..], started) == out;
          return;
        }
      }
      i := i + 1;
    }
  }

  /** What is printed is non-blank stripped text of lines that come after a
      "#Tree" line and are not themselves "#Tree" lines. */
  lemma {:induction false} DebugLinesSpec(lines: seq<string>, started: bool)
    ensures forall x :: x in DebugLines(lines, started) ==>
              x != "" && Strip(x) == x &&
              exists k :: 0 <= k < |lines| && x == Strip(lines[k]) && !IsTreeHeader(lines[k]) &&
                          (started || Started(lines[..k]))
    decreases |lines|
  {
    if lines != [] {
      var rest := lines[1..];
      var st := started || IsTreeHeader(lines[0]);
      DebugLinesSpec(rest, st);
      forall x | x in DebugLines(lines, started)
        ensures x != "" && Strip(x) == x &&
                exists k :: 0 <= k < |lines| && x == Strip(lines[k]) && !IsTreeHeader(lines[k]) &&
                            (started || Started(lines[..k]))
      {
        if !IsTreeHeader(lines[0]) && started && x == Strip(lines[0]) {
          StripIdempotent(lines[0]);
          assert x == Strip(lines[0]) && !IsTreeHeader(lines[0]);
        } else {
          assert x in DebugLines(rest, st);
          var k :| 0 <= k < |rest| && x == Strip(rest[k]) && !IsTreeHeader(rest[k]) && (st || Started(rest[..k]));
          assert lines[k + 1] == rest[k];
          if !started {
            if IsTreeHeader(lines[0]) {
              assert IsTreeHeader(lines[..k + 1][0]);
            } else {
              var j :| 0 <= j < k && IsTreeHeader(rest[..k][j]);
              assert lines[..k + 1][j + 1] == rest[..k][j];
            }
          }
        }
      }
    }
  }

  // ---------------------------------------------------------------------
  // calculate_edge_midpoint

  /** `calculate_edge_midpoint`: None when the list is empty or an index is
      outside [0, len), else the midpoint of the two points. */
  function EdgeMidpoint(points: seq<(real, real)>, i1: int, i2: int): (r: Option<(real, real)>)
    ensures r.None? <==> points == [] || i1 < 0 || i2 < 0 || i1 >= |points| || i2 >= |points|
    ensures r.Some? ==> r.value == ((points[i1].0 + points[i2].0) / 2.0, (points[i1].1 + points[i2].1) / 2.0)
  {
    if points == [] || i1 < 0 || i2 >= |points| || i1 >= |points| || i2 < 0 then None
    else
      var lo := if i1 <= i2 then i1 else i2;
      var hi := if i1 <= i2 then i2 else i1;
      Some(((points[lo].0 + points[hi].0) / 2.0, (points[lo].1 + points[hi].1) / 2.0))
  }

  /** The order of the two indices does not matter, and the midpoint of a
      point with itself is the point. */
  lemma EdgeMidpointSymmetric(points: seq<(real, real)>, i1: int, i2: int)
    ensures EdgeMidpoint(points, i1, i2) == EdgeMidpoint(points, i2, i1)
    ensures 0 <= i1 < |points| ==> EdgeMidpoint(points, i1, i1) == Some(points[i1])
  {
  }
}
