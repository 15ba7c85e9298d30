/** analysis/helper_clonefinder.py: the input check run before CloneFinder,
    the names of the files CloneFinder writes, and the rule that moves them
    into the target directory.  The file system is a map from path to
    contents; cloning the CloneFinder repository and running it are not part
    of this model (the files a run produces are a parameter). */
module HelperCloneFinder {
  import opened Wrappers
  import opened Text

  // ---------------------------------------------------------------------
  // is_valid_line (lines 38-49)

  /** A read-count column: one whose name ends with ":REF" or ":ALT". */
  predicate Tagged(col: string) {
    EndsWith(col, ":REF") || EndsWith(col, ":ALT")
  }

  /** A line is valid when some tab-separated column is not a read-count
      column. */
  predicate ValidLine(line: string) {
    var cols := Split(line, '\t');
    exists i :: 0 <= i < |cols| && !Tagged(cols[i])
  }

  /** `is_valid_line`: the for/else scan from the last column backwards that
      stops at the first column that is not a read-count column.  The
      `print` after the `return` is never reached. */
  method IsValidLine(line: string) returns (valid: bool)
    ensures valid <==> ValidLine(line)
  {
    var cols := Split(line, '\t');
    var i := |cols|;
    while i > 0
      invariant 0 <= i <= |cols|
      invariant forall j :: i <= j < |cols| ==> Tagged(cols[j])
    {
      if !Tagged(cols[i - 1]) {
        return true;
      }
      i := i - 1;
    }
    return false;
  }

  // ---------------------------------------------------------------------
  // process_input_file (lines 52-61)

  /** The line counted from 1 on which `process_input_file` raises
      ValueError ("Invalid format on line <n>"), or None when every
      non-blank line is valid. */
  function FirstInvalidLine(lines: seq<string>): (r: Option<nat>)
    decreases |lines|
  {
    if lines == [] then None
    else
      match FirstInvalidLine(lines[..|lines| - 1])
      case Some(n) => Some(n)
      case None =>
        var line := Strip(lines[|lines| - 1]);
        if line != "" && !ValidLine(line) then Some(|lines|) else None
  }

  /** A line that `process_input_file` rejects: non-blank once stripped and
      not valid. */
  predicate Rejected(line: string) {
    Strip(line) != "" && !ValidLine(Strip(line))
  }

  /** The reported line is the first rejected one, and nothing is reported
      exactly when no line is rejected (blank lines are never rejected). */
  lemma {:induction false} FirstInvalidLineSpec(lines: seq<string>)
    ensures FirstInvalidLine(lines).None? <==> forall i :: 0 <= i < |lines| ==> !Rejected(lines[i])
    ensures FirstInvalidLine(lines).Some? ==>
              var n := FirstInvalidLine(lines).value;
              1 <= n <= |lines| && Rejected(lines[n - 1]) && forall i :: 0 <= i < n - 1 ==> !Rejected(lines[i])
    decreases |lines|
  {
    if lines != [] {
      var init := lines[..|lines| - 1];
      FirstInvalidLineSpec(init);
      assert forall i :: 0 <= i < |init| ==> init[i] == lines[i];
    }
  }

  /** `process_input_file` over the lines of the input file. */
  method ProcessInputFile(lines: seq<string>) returns (r: Option<nat>)
    ensures r == FirstInvalidLine(lines)
  {
    for i := 0 to |lines|
      invariant FirstInvalidLine(lines[..i]) == None
    {
      assert lines[..i + 1][..i] == lines[..i];
      var line := Strip(lines[i]);
      if line == "" {
        continue;
      }
      var valid := IsValidLine(line);
      if !valid {
        FirstInvalidLineSticky(lines, i + 1);
        return Some(i + 1);
      }
    }
    assert lines[..|lines|] == lines;
    return None;
  }

  lemma {:induction false} FirstInvalidLineSticky(lines: seq<string>, k: nat)
    requires k <= |lines| && FirstInvalidLine(lines[..k]).Some?
    ensures FirstInvalidLine(lines) == FirstInvalidLine(lines[..k])
    decreases |lines|
  {
    if k == |lines| {
      assert lines[..k] == lines;
    } else {
      var init := lines[..|lines| - 1];
      assert init[..k] == lines[..k];
      FirstInvalidLineSticky(init, k);
    }
  }

  // ---------------------------------------------------------------------
  // move_clonefinder_outputs (lines 6-24)

  const Suffixes: seq<string> := ["snv_CloneFinder.nwk", "snv_summary.txt", "snv_CloneFinder.meg", "snv_CloneFinder.txt"]

  /** The four file names CloneFinder writes for an input file: its base name
      without the extension, followed by each suffix. */
  function OutputNames(inputFile: string): (r: seq<string>)
    ensures |r| == 4
  {
    var base := SplitExtRoot(BaseName(inputFile));
    seq(4, i requires 0 <= i < 4 => base + Suffixes[i])
  }

  /** The four names share the input's stem, are distinct, and name plain
      files (no '/'). */
  lemma OutputNamesSpec(inputFile: string)
    ensures forall i :: 0 <= i < 4 ==>
              OutputNames(inputFile)[i] == SplitExtRoot(BaseName(inputFile)) + Suffixes[i] &&
              '/' !in OutputNames(inputFile)[i]
    ensures forall i, j :: 0 <= i < j < 4 ==> OutputNames(inputFile)[i] != OutputNames(inputFile)[j]
  {
    var b := BaseName(inputFile);
    var base := SplitExtRoot(b);
    assert b[..|base|] == base;
    assert '/' !in base;
    var names := OutputNames(inputFile);
    forall i, j | 0 <= i < j < 4 ensures names[i] != names[j] {
      if |Suffixes[i]| == |Suffixes[j]| {
        assert names[i][|base|..] == Suffixes[i] && names[j][|base|..] == Suffixes[j];
      } else {
        assert |names[i]| != |names[j]|;
      }
    }
  }

  /** One pass of the loop at lines 17-24: `src` is moved to `dest` only if
      it exists and `dest` does not; an existing file is never overwritten. */
  function MoveStep(fs: map<string, string>, src: string, dest: string): (r: map<string, string>)
    ensures src !in fs || dest in fs ==> r == fs
    ensures src in fs && dest !in fs ==>
              dest in r && r[dest] == fs[src] && src !in r &&
              forall p :: p != src && p != dest ==> (p in r <==> p in fs) && (p in r ==> r[p] == fs[p])
  {
    if src in fs && dest !in fs then (fs - {src})[dest := fs[src]] else fs
  }

  /** The moves in order. */
  function Moves(fs: map<string, string>, moves: seq<(string, string)>): map<string, string>
    decreases |moves|
  {
    if moves == [] then fs
    else
      var (src, dest) := moves[|moves| - 1];
      MoveStep(Moves(fs, moves[..|moves| - 1]), src, dest)
  }

  /** The (source, destination) pair of every output name. */
  function OutputMoves(inputFile: string, targetDir: string): (r: seq<(string, string)>)
    ensures |r| == 4
  {
    var names := OutputNames(inputFile);
    seq(4, i requires 0 <= i < 4 => (PathJoin(DirName(inputFile), names[i]), PathJoin(targetDir, names[i])))
  }

  /** A path that no move names is left as it was. */
  lemma {:induction false} MovesUntouched(fs: map<string, string>, moves: seq<(string, string)>, p: string)
    requires forall i :: 0 <= i < |moves| ==> moves[i].0 != p && moves[i].1 != p
    ensures (p in Moves(fs, moves) <==> p in fs) && (p in fs ==> Moves(fs, moves)[p] == fs[p])
    decreases |moves|
  {
    if moves != [] {
      MovesUntouched(fs, moves[..|moves| - 1], p);
    }
  }

  /** Moves between distinct sources and distinct destinations, no path being
      both. */
  predicate Separate(moves: seq<(string, string)>) {
    (forall i, j :: 0 <= i < j < |moves| ==> moves[i].0 != moves[j].0 && moves[i].1 != moves[j].1) &&
    (forall i, j :: 0 <= i < |moves| && 0 <= j < |moves| ==> moves[i].0 != moves[j].1)
  }

  lemma SeparateInit(moves: seq<(string, string)>)
    requires moves != [] && Separate(moves)
    ensures Separate(moves[..|moves| - 1])
    ensures forall i :: 0 <= i < |moves| - 1 ==>
              moves[..|moves| - 1][i] == moves[i] &&
              moves[i].0 != moves[|moves| - 1].0 && moves[i].1 != moves[|moves| - 1].0 &&
              moves[i].0 != moves[|moves| - 1].1 && moves[i].1 != moves[|moves| - 1].1
  {
  }

  /** No file that existed is overwritten: a path present before and after
      the moves keeps its contents. */
  lemma {:induction false} MovesKeepExisting(fs: map<string, string>, moves: seq<(string, string)>, p: string)
    requires Separate(moves) && p in fs && p in Moves(fs, moves)
    ensures Moves(fs, moves)[p] == fs[p]
    decreases |moves|
  {
    if moves != [] {
      var init := moves[..|moves| - 1];
      var (src, dest) := moves[|moves| - 1];
      var m := Moves(fs, init);
      SeparateInit(moves);
      if p == dest {
        MovesUntouched(fs, init, dest);
      } else {
        assert p in m;
        MovesKeepExisting(fs, init, p);
      }
    }
  }

  /** Each source that exists is moved to its destination when that
      destination does not exist yet. */
  lemma {:induction false} MovesArrive(fs: map<string, string>, moves: seq<(string, string)>, k: nat)
    requires Separate(moves) && k < |moves|
    requires moves[k].0 in fs && moves[k].1 !in fs
    ensures moves[k].1 in Moves(fs, moves) && Moves(fs, moves)[moves[k].1] == fs[moves[k].0]
    ensures moves[k].0 !in Moves(fs, moves)
    decreases |moves|
  {
    var init := moves[..|moves| - 1];
    var (src, dest) := moves[|moves| - 1];
    SeparateInit(moves);
    if k == |moves| - 1 {
      MovesUntouched(fs, init, src);
      MovesUntouched(fs, init, dest);
    } else {
      assert init[k] == moves[k];
      MovesArrive(fs, init, k);
    }
  }

  /** A joined path is its directory prefix followed by the name. */
  lemma PathJoinPrefix(dir: string, name: string)
    ensures PathJoin(dir, name) == PathJoin(dir, "") + name
    ensures PathJoin(dir, "") == [] || PathJoin(dir, "")[|PathJoin(dir, "")| - 1] == '/'
  {
  }

  /** Plain names joined to two directories that differ as path prefixes
      never give the same path. */
  lemma PathJoinApart(a: string, b: string, n: string, m: string)
    requires '/' !in n && '/' !in m && PathJoin(a, "") != PathJoin(b, "")
    ensures PathJoin(a, n) != PathJoin(b, m)
  {
    var p, q := PathJoin(a, ""), PathJoin(b, "");
    PathJoinPrefix(a, n);
    PathJoinPrefix(b, m);
    if |p + n| == |q + m| {
      if |p| < |q| {
        assert (q + m)[|q| - 1] == '/';
        assert (p + n)[|q| - 1] == n[|q| - 1 - |p|];
      } else if |q| < |p| {
        assert (p + n)[|p| - 1] == '/';
        assert (q + m)[|p| - 1] == m[|p| - 1 - |q|];
      } else {
        assert (p + n)[..|p|] == p && (q + m)[..|q|] == q;
      }
    }
  }

  /** Distinct names joined to one directory give distinct paths. */
  lemma PathJoinInjective(dir: string, n: string, m: string)
    requires n != m
    ensures PathJoin(dir, n) != PathJoin(dir, m)
  {
    var p := PathJoin(dir, "");
    PathJoinPrefix(dir, n);
    PathJoinPrefix(dir, m);
    assert (p + n)[|p|..] == n && (p + m)[|p|..] == m;
  }

  /** When the input directory and the target directory differ, the output
      moves are separate, so the lemmas above apply to them. */
  lemma OutputMovesSeparate(inputFile: string, targetDir: string)
    requires PathJoin(DirName(inputFile), "") != PathJoin(targetDir, "")
    ensures Separate(OutputMoves(inputFile, targetDir))
  {
    var names := OutputNames(inputFile);
    var moves := OutputMoves(inputFile, targetDir);
    OutputNamesSpec(inputFile);
    forall i, j | 0 <= i < j < 4 ensures moves[i].0 != moves[j].0 && moves[i].1 != moves[j].1 {
      PathJoinInjective(DirName(inputFile), names[i], names[j]);
      PathJoinInjective(targetDir, names[i], names[j]);
    }
    forall i, j | 0 <= i < 4 && 0 <= j < 4 ensures moves[i].0 != moves[j].1 {
      PathJoinApart(DirName(inputFile), targetDir, names[i], names[j]);
    }
  }

  /** `move_clonefinder_outputs` (lines 6-24). */
  method MoveCloneFinderOutputs(inputFile: string, targetDir: string, fs: map<string, string>)
    returns (after: map<string, string>)
    ensures after == Moves(fs, OutputMoves(inputFile, targetDir))
  {
    var names := OutputNames(inputFile);
    var inputDir := DirName(inputFile);
    var moves := OutputMoves(inputFile, targetDir);
    after := fs;
    for i := 0 to 4
      invariant after == Moves(fs, moves[..i])
    {
      var src := PathJoin(inputDir, names[i]);
      var dest := PathJoin(targetDir, names[i]);
      assert moves[i] == (src, dest);
      MovesAppend(fs, moves, i);
      if src in after && dest !in after {
        after := (after - {src})[dest := after[src]];
      }
    }
    assert moves[..4] == moves;
  }

  /** One move more. */
  lemma MovesAppend(fs: map<string, string>, moves: seq<(string, string)>, i: nat)
    requires i < |moves|
    ensures Moves(fs, moves[..i + 1]) == MoveStep(Moves(fs, moves[..i]), moves[i].0, moves[i].1)
  {
    assert moves[..i + 1][..i] == moves[..i];
  }

  // ---------------------------------------------------------------------
  // run_clonefinder (lines 64-86)

  /** Why `run_clonefinder` raised ValueError. */
  datatype Failure = UnsupportedMode | InvalidLine(lineNum: nat)

  datatype Run = Run(failure: Option<Failure>, files: map<string, string>)

  /** `run_clonefinder` after the repository is in place: only the mode
      "snv" is accepted, the input is checked, CloneFinder runs on a valid
      input (leaving the files `produced`), and the `finally` clause moves
      the outputs in every case. */
  function RunCloneFinder(mode: string, inputFile: string, targetDir: string, lines: seq<string>,
                          fs: map<string, string>, produced: map<string, string>): (r: Run)
    ensures mode != "snv" ==> r.failure == Some(UnsupportedMode)
    ensures mode == "snv" && FirstInvalidLine(lines).Some? ==> r.failure == Some(InvalidLine(FirstInvalidLine(lines).value))
    ensures r.failure.None? <==> mode == "snv" && FirstInvalidLine(lines).None?
    ensures r.failure.Some? ==> r.files == Moves(fs, OutputMoves(inputFile, targetDir))
    ensures r.failure.None? ==> r.files == Moves(produced, OutputMoves(inputFile, targetDir))
  {
    var moves := OutputMoves(inputFile, targetDir);
    if mode != "snv" then Run(Some(UnsupportedMode), Moves(fs, moves))
    else
      match FirstInvalidLine(lines)
      case Some(n) => Run(Some(InvalidLine(n)), Moves(fs, moves))
      case None => Run(None, Moves(produced, moves))
  }
}
